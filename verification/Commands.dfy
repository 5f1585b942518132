/** The commands of the wire protocol: what each one carries, and which ones an encoder accepts. */
module Commands {
  import opened Bytes
  import opened Framing

  const CMD_PING: u8 := 0x01
  const CMD_INFO: u8 := 0x03
  const CMD_ID: u8 := 0x04
  const CMD_RESET: u8 := 0x05
  const CMD_EPAGE: u8 := 0x06
  const CMD_WPAGE: u8 := 0x07
  const CMD_XEBLOCK: u8 := 0x08
  const CMD_XWPAGE: u8 := 0x09
  const CMD_CRCRX: u8 := 0x10
  const CMD_RRANGE: u8 := 0x11
  const CMD_XRRANGE: u8 := 0x12
  const CMD_SATTR: u8 := 0x13
  const CMD_GATTR: u8 := 0x14
  const CMD_CRCIF: u8 := 0x15
  const CMD_CRCEF: u8 := 0x16
  const CMD_XEPAGE: u8 := 0x17
  const CMD_XFINIT: u8 := 0x18
  const CMD_CLKOUT: u8 := 0x19
  const CMD_WUSER: u8 := 0x20
  const CMD_CHANGE_BAUD: u8 := 0x21
  const CMD_EXIT: u8 := 0x22
  const CMD_SSTARTADDR: u8 := 0x23

  const MAX_INDEX := 16
  const KEY_LEN := 8
  const MAX_ATTR_LEN := 55
  const INT_PAGE_SIZE := 512
  const EXT_PAGE_SIZE := 256

  datatype BaudMode = Set | Verify

  datatype Command =
    | Ping
    | Info
    | Id
    | Reset
    | ErasePage(address: u32)
    | WritePage(address: u32, data: seq<u8>)
    | EraseExBlock(address: u32)
    | WriteExPage(address: u32, data: seq<u8>)
    | CrcRxBuffer
    | ReadRange(address: u32, length: u16)
    | ExReadRange(address: u32, length: u16)
    | SetAttr(index: u8, key: seq<u8>, value: seq<u8>)
    | SetStartAddress(address: u32)
    | GetAttr(index: u8)
    | CrcIntFlash(address: u32, crcLength: u32)
    | CrcExtFlash(address: u32, crcLength: u32)
    | EraseExPage(address: u32)
    | ExtFlashInit
    | ClockOut
    | WriteFlashUserPages(page1: u32, page2: u32)
    | ChangeBaud(mode: BaudMode, baud: u32)
    | Exit

  /** The command byte. */
  function Code(c: Command): u8 {
    match c
    case Ping => CMD_PING
    case Info => CMD_INFO
    case Id => CMD_ID
    case Reset => CMD_RESET
    case ErasePage(_) => CMD_EPAGE
    case WritePage(_, _) => CMD_WPAGE
    case EraseExBlock(_) => CMD_XEBLOCK
    case WriteExPage(_, _) => CMD_XWPAGE
    case CrcRxBuffer => CMD_CRCRX
    case ReadRange(_, _) => CMD_RRANGE
    case ExReadRange(_, _) => CMD_XRRANGE
    case SetAttr(_, _, _) => CMD_SATTR
    case SetStartAddress(_) => CMD_SSTARTADDR
    case GetAttr(_) => CMD_GATTR
    case CrcIntFlash(_, _) => CMD_CRCIF
    case CrcExtFlash(_, _) => CMD_CRCEF
    case EraseExPage(_) => CMD_XEPAGE
    case ExtFlashInit => CMD_XFINIT
    case ClockOut => CMD_CLKOUT
    case WriteFlashUserPages(_, _) => CMD_WUSER
    case ChangeBaud(_, _) => CMD_CHANGE_BAUD
    case Exit => CMD_EXIT
  }

  function ModeByte(m: BaudMode): u8 {
    match m
    case Set => 0x01
    case Verify => 0x02
  }

  /** A command whose fields fit their length bytes. Every command a decoder delivers is of this kind. */
  predicate WellFormed(c: Command) {
    match c
    case WriteExPage(_, data) => |data| == EXT_PAGE_SIZE
    case SetAttr(_, key, value) => |key| == KEY_LEN && |value| < 256
    case _ => true
  }

  /** The message: the command packet before escaping. */
  function Payload(c: Command): seq<u8>
    requires WellFormed(c)
  {
    match c
    case ErasePage(address) => LeU32(address)
    case WritePage(address, data) => LeU32(address) + data
    case EraseExBlock(address) => LeU32(address)
    case WriteExPage(address, data) => LeU32(address) + data
    case ReadRange(address, length) => LeU32(address) + LeU16(length)
    case ExReadRange(address, length) => LeU32(address) + LeU16(length)
    case SetAttr(index, key, value) => [index] + key + [|value| as u8] + value
    case SetStartAddress(address) => LeU32(address)
    case GetAttr(index) => [index]
    case CrcIntFlash(address, length) => LeU32(address) + LeU32(length)
    case CrcExtFlash(address, length) => LeU32(address) + LeU32(length)
    case EraseExPage(address) => LeU32(address)
    case WriteFlashUserPages(page1, page2) => LeU32(page1) + LeU32(page2)
    case ChangeBaud(mode, baud) => [ModeByte(mode)] + LeU32(baud)
    case _ => []
  }

  /** What `CommandEncoder::new` accepts. */
  predicate Accepted(c: Command) {
    match c
    case WritePage(_, data) => |data| == INT_PAGE_SIZE
    case WriteExPage(_, data) => |data| == EXT_PAGE_SIZE
    case SetAttr(index, key, value) => index <= MAX_INDEX && |key| == KEY_LEN && |value| <= MAX_ATTR_LEN
    case _ => true
  }

  /** The command as it travels. */
  function Wire(c: Command): seq<u8>
    requires WellFormed(c)
  {
    CommandFrame(Payload(c), Code(c))
  }
}
