/** The responses of the wire protocol: what each one carries, and which ones an encoder accepts. */
module Responses {
  import opened Bytes
  import opened Framing

  const RES_OVERFLOW: u8 := 0x10
  const RES_PONG: u8 := 0x11
  const RES_BADADDR: u8 := 0x12
  const RES_INTERROR: u8 := 0x13
  const RES_BADARGS: u8 := 0x14
  const RES_OK: u8 := 0x15
  const RES_UNKNOWN: u8 := 0x16
  const RES_XFTIMEOUT: u8 := 0x17
  const RES_XFEPE: u8 := 0x18
  const RES_CRCRX: u8 := 0x19
  const RES_RRANGE: u8 := 0x20
  const RES_XRRANGE: u8 := 0x21
  const RES_GATTR: u8 := 0x22
  const RES_CRCIF: u8 := 0x23
  const RES_CRCXF: u8 := 0x24
  const RES_INFO: u8 := 0x25
  const RES_CHANGE_BAUD_FAIL: u8 := 0x26

  const KEY_LEN := 8
  const MAX_ATTR_LEN := 55
  const MAX_INFO_LEN := 192

  datatype Response =
    | Overflow
    | Pong
    | BadAddress
    | InternalError
    | BadArguments
    | Okay
    | Unknown
    | ExtFlashTimeout
    | ExtFlashPageError
    | CrcRxBuffer(length: u16, crc: u32)
    | ReadRange(data: seq<u8>)
    | ExReadRange(data: seq<u8>)
    | GetAttr(key: seq<u8>, value: seq<u8>)
    | CrcIntFlash(crc: u32)
    | CrcExtFlash(crc: u32)
    | Info(info: seq<u8>)
    | ChangeBaudFail

  function Code(r: Response): u8 {
    match r
    case Overflow => RES_OVERFLOW
    case Pong => RES_PONG
    case BadAddress => RES_BADADDR
    case InternalError => RES_INTERROR
    case BadArguments => RES_BADARGS
    case Okay => RES_OK
    case Unknown => RES_UNKNOWN
    case ExtFlashTimeout => RES_XFTIMEOUT
    case ExtFlashPageError => RES_XFEPE
    case CrcRxBuffer(_, _) => RES_CRCRX
    case ReadRange(_) => RES_RRANGE
    case ExReadRange(_) => RES_XRRANGE
    case GetAttr(_, _) => RES_GATTR
    case CrcIntFlash(_) => RES_CRCIF
    case CrcExtFlash(_) => RES_CRCXF
    case Info(_) => RES_INFO
    case ChangeBaudFail => RES_CHANGE_BAUD_FAIL
  }

  /** What `ResponseEncoder::new` accepts. */
  predicate Accepted(r: Response) {
    match r
    case GetAttr(key, value) => |key| == KEY_LEN && |value| <= MAX_ATTR_LEN
    case Info(info) => |info| <= MAX_INFO_LEN
    case _ => true
  }

  function Padded(data: seq<u8>, size: nat): (s: seq<u8>)
    requires |data| <= size
    ensures |s| == size
  {
    data + seq(size - |data|, _ => 0)
  }

  /** The message that follows the response byte, before escaping. */
  function Body(r: Response): seq<u8>
    requires Accepted(r)
  {
    match r
    case CrcRxBuffer(length, crc) => LeU16(length) + LeU32(crc)
    case ReadRange(data) => data
    case ExReadRange(data) => data
    case GetAttr(key, value) => key + [|value| as u8] + Padded(value, MAX_ATTR_LEN)
    case CrcIntFlash(crc) => LeU32(crc)
    case CrcExtFlash(crc) => LeU32(crc)
    case Info(info) => [|info| as u8] + Padded(info, MAX_INFO_LEN)
    case _ => []
  }

  /** The response as it travels. */
  function Wire(r: Response): seq<u8>
    requires Accepted(r)
  {
    ResponseFrame(Code(r), Body(r))
  }

  lemma BareWire(r: Response)
    requires Accepted(r) && Body(r) == []
    ensures Wire(r) == [ESCAPE_CHAR, Code(r)]
  {
  }
}
