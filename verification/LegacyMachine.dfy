/** The polling bootloader of the SAM4L: staged receive and transmit buffers, the commands, and the negotiation
    of a new baud rate, as functions of its global variables. */
module LegacyMachine {
  import opened Alignment
  import opened Bytes
  import opened Framing
  import opened R = Responses
  import BM = BootloaderMachine
  import Crc

  const TXBUFSZ := 8192
  const RXBUFSZ := 8192
  const FLASH_SIZE := 0x8_0000
  const USER_PAGE_SIZE := 512
  const ALLOWED_FLASH_FLOOR := 65280
  const ALLOWED_FLASH_CEILING := 524287
  const ATTRIBUTE_FLOOR := 0x600
  const SLOT := 64
  const INFO_LENGTH := 193

  const CMD_CHANGE_BAUD: u8 := 0x21
  const SUBCMD_NEW: u8 := 0x01
  const SUBCMD_CONFIRM: u8 := 0x02

  datatype Change = Idle | Changing | Waiting | Resetting

  /** A byte that went out, and the baud rate it went out at. */
  datatype Sent = Sent(byte: u8, rate: u32)

  datatype Station = Station(
    escape: bool,
    tx: seq<u8>, txPtr: nat, txLeft: nat,
    rx: seq<u8>, rxPtr: nat,
    change: Change, newBaud: u32, oldBaud: u32, baud: u32,
    flash: seq<u8>, user: seq<u8>,
    sent: seq<Sent>)

  /** What the hardware answers beyond the flash, and the information text with its length in front. */
  datatype Env = Env(outside: u32 -> u8, info: seq<u8>)

  predicate ValidEnv(env: Env) {
    |env.info| == INFO_LENGTH
  }

  /** Every index stays within its buffer. */
  predicate ValidStation(s: Station) {
    && |s.tx| == TXBUFSZ && s.txPtr + s.txLeft <= TXBUFSZ
    && |s.rx| == RXBUFSZ && s.rxPtr <= RXBUFSZ
    && |s.flash| == FLASH_SIZE && |s.user| == USER_PAGE_SIZE
  }

  // ---- staging ----------------------------------------------------------------------

  /** How many bytes `_escape_cat` takes while two are free in the staging buffer. */
  function Taken(dat: seq<u8>, left: nat): (n: nat)
    ensures n <= |dat|
  {
    BM.FillCount(dat, left, TXBUFSZ)
  }

  /** `_escape_set`: a header and as much of the escaped data as fits. */
  function Stage(s: Station, dat: seq<u8>, cmd: u8): (r: Station)
    requires ValidStation(s)
    ensures ValidStation(r)
  {
    BM.FillFits(dat, 2, TXBUFSZ);
    var out := ResponseFrame(cmd, dat[..Taken(dat, 2)]);
    s.(txPtr := 0, txLeft := |out|, tx := Splice(s.tx, 0, out))
  }

  /** A response without data. */
  function Answer(s: Station, cmd: u8): (r: Station)
    requires ValidStation(s)
    ensures ValidStation(r)
  {
    Stage(s, [], cmd)
  }

  // ---- memory ---------------------------------------------------------------------------

  function ByteAt(env: Env, flash: seq<u8>, address: u32): u8 {
    if address < |flash| then flash[address] else env.outside(address)
  }

  /** Consecutive bytes from a 32-bit address on. */
  function BytesAt(env: Env, flash: seq<u8>, address: u32, n: nat): (s: seq<u8>)
    ensures |s| == n
    ensures address + n <= |flash| <= FLASH_SIZE ==> s == flash[address..address + n]
    decreases n
  {
    if n == 0 then []
    else [ByteAt(env, flash, address)] + BytesAt(env, flash, (address + 1) % 0x1_0000_0000, n - 1)
  }

  function RxU32(s: Station, offset: nat): u32
    requires ValidStation(s) && offset + 4 <= RXBUFSZ
  {
    ReadU32(s.rx[offset..offset + 4])
  }

  function RxU16(s: Station, offset: nat): u16
    requires ValidStation(s) && offset + 2 <= RXBUFSZ
  {
    ReadU16(s.rx[offset..offset + 2])
  }

  // ---- commands -------------------------------------------------------------------------

  function Reset(s: Station): Station {
    s.(txLeft := 0, rxPtr := 0)
  }

  predicate BadPage(address: u32) {
    address < ALLOWED_FLASH_FLOOR || address >= ALLOWED_FLASH_CEILING || address % PAGE != 0
  }

  lemma PageFits(address: u32)
    requires !BadPage(address)
    ensures PAGE * (address / PAGE) == address && address + PAGE <= FLASH_SIZE
  {
  }

  /** A page that is erased already stays so. */
  function EPage(s: Station): (r: Station)
    requires ValidStation(s)
    ensures ValidStation(r)
  {
    if s.rxPtr != 4 then Answer(s, RES_BADARGS)
    else
      var address := RxU32(s, 0);
      if BadPage(address) then Answer(s, RES_BADADDR)
      else
        PageFits(address);
        Answer(s.(flash := Splice(s.flash, address, seq(PAGE, _ => 0xFF))), RES_OK)
  }

  function WPage(s: Station): (r: Station)
    requires ValidStation(s)
    ensures ValidStation(r)
  {
    if s.rxPtr != PAGE + 4 then Answer(s, RES_BADARGS)
    else
      var address := RxU32(s, 0);
      if BadPage(address) then Answer(s, RES_BADADDR)
      else
        PageFits(address);
        Answer(s.(flash := Splice(s.flash, address, s.rx[4..PAGE + 4])), RES_OK)
  }

  function CrcRx(s: Station): (r: Station)
    requires ValidStation(s)
    ensures ValidStation(r)
  {
    var crc :=
      if s.rxPtr == 0 then [0xFF, 0xFF, 0xFF, 0xFF] else Crc.RegisterBytes(Crc.Crc32(0, s.rx[..s.rxPtr]));
    Stage(s, LeU16(s.rxPtr) + crc, RES_CRCRX)
  }

  /** The sum of address and length wraps around at 32 bits, as in the source. */
  function RRange(env: Env, s: Station): (r: Station)
    requires ValidStation(s)
    ensures ValidStation(r)
  {
    if s.rxPtr != 6 then Answer(s, RES_BADARGS)
    else
      var len := RxU16(s, 4);
      if len >= TXBUFSZ / 2 then Answer(s, RES_BADARGS)
      else
        var address := RxU32(s, 0);
        if (address + len) % 0x1_0000_0000 > ALLOWED_FLASH_CEILING + 1 then Answer(s, RES_BADADDR)
        else Stage(s, BytesAt(env, s.flash, address, len), RES_RRANGE)
  }

  function AttributeAt(index: nat): nat {
    ATTRIBUTE_FLOOR + SLOT * index
  }

  /** What `bl_c_sattr` writes of a slot: the rest of it keeps what it held. */
  function AttributeData(key: seq<u8>, value: seq<u8>): (d: seq<u8>)
    requires |key| == 8 && |value| < 256
    ensures |d| == 9 + |value|
  {
    key + [|value| as u8] + value
  }

  function SAttr(s: Station): (r: Station)
    requires ValidStation(s)
    ensures ValidStation(r)
  {
    var vlen := s.rx[9] as nat;
    if s.rxPtr != 10 + vlen then Answer(s, RES_BADARGS)
    else
      var index := s.rx[0] as nat;
      if index >= 16 || vlen >= 56 then Answer(s, RES_BADADDR)
      else
        Answer(
          s.(flash := Splice(s.flash, AttributeAt(index), AttributeData(s.rx[1..9], s.rx[10..10 + vlen]))), RES_OK)
  }

  function GAttr(s: Station): (r: Station)
    requires ValidStation(s)
    ensures ValidStation(r)
  {
    if s.rxPtr != 1 then Answer(s, RES_BADARGS)
    else if s.rx[0] >= 16 then Answer(s, RES_BADADDR)
    else
      var at := AttributeAt(s.rx[0]);
      Stage(s, s.flash[at..at + SLOT], RES_GATTR)
  }

  function CrcIf(s: Station): (r: Station)
    requires ValidStation(s)
    ensures ValidStation(r)
  {
    if s.rxPtr != 8 then Answer(s, RES_BADARGS)
    else
      var (base, len) := (RxU32(s, 0), RxU32(s, 4));
      if base >= ALLOWED_FLASH_CEILING || (base + len) % 0x1_0000_0000 > ALLOWED_FLASH_CEILING + 1 || len >= FLASH_SIZE
      then Answer(s, RES_BADADDR)
      else Stage(s, Crc.RegisterBytes(Crc.Crc32(0, s.flash[base..base + len])), RES_CRCIF)
  }

  function WUser(s: Station): (r: Station)
    requires ValidStation(s)
    ensures ValidStation(r)
  {
    if s.rxPtr != 8 then Answer(s, RES_BADARGS)
    else Answer(s.(user := s.rx[4..8] + s.rx[0..4] + seq(USER_PAGE_SIZE - 8, _ => 0xFF)), RES_OK)
  }

  function ChangeBaud(s: Station): (r: Station)
    requires ValidStation(s)
    ensures ValidStation(r)
  {
    if s.rxPtr < 5 then Answer(s, RES_BADARGS)
    else if s.rxPtr == 5 && s.rx[0] == SUBCMD_NEW then
      if s.change != Idle then Answer(s, RES_INTERROR)
      else Answer(s.(change := Changing, newBaud := RxU32(s, 1)), RES_OK)
    else if s.rxPtr == 10 && s.rx[5] == SUBCMD_CONFIRM then
      if s.change != Waiting then Answer(s, RES_INTERROR)
      else if RxU32(s, 6) == s.baud then Answer(s.(change := Idle), RES_OK)
      else Answer(s.(change := Resetting), RES_CHANGE_BAUD_FAIL)
    else if s.change == Waiting then Answer(s.(change := Resetting), RES_CHANGE_BAUD_FAIL)
    else Answer(s, RES_INTERROR)
  }

  /** `bl_cmd`. The command ID does nothing, not even answer. */
  function Execute(env: Env, s: Station, b: u8): (r: Station)
    requires ValidEnv(env) && ValidStation(s)
    ensures ValidStation(r)
  {
    if s.change == Waiting && b != CMD_CHANGE_BAUD then Answer(s.(change := Resetting), RES_CHANGE_BAUD_FAIL)
    else
      match b
      case 0x01 => Answer(s, RES_PONG)
      case 0x03 => Stage(s, env.info, RES_INFO)
      case 0x04 => s
      case 0x05 => Reset(s)
      case 0x06 => EPage(s)
      case 0x07 => WPage(s)
      case 0x10 => CrcRx(s)
      case 0x11 => RRange(env, s)
      case 0x13 => SAttr(s)
      case 0x14 => GAttr(s)
      case 0x15 => CrcIf(s)
      case 0x20 => WUser(s)
      case 0x21 => ChangeBaud(s)
      case _ => Answer(s, RES_UNKNOWN)
  }

  // ---- the loop ---------------------------------------------------------------------------

  function Keep(s: Station, b: u8): (r: Station)
    requires ValidStation(s) && s.rxPtr < RXBUFSZ
    ensures ValidStation(r)
  {
    s.(rx := s.rx[s.rxPtr := b], rxPtr := s.rxPtr + 1)
  }

  /** `bl_rxb` */
  function ReceiveByte(env: Env, s: Station, b: u8): (r: Station)
    requires ValidEnv(env) && ValidStation(s) && s.rxPtr < RXBUFSZ
    ensures ValidStation(r)
  {
    if s.escape && b == ESCAPE_CHAR then Keep(s.(escape := false), b)
    else if s.escape then Execute(env, s, b).(escape := false)
    else if b == ESCAPE_CHAR then s.(escape := true)
    else if s.change == Waiting && s.rxPtr > 10 then Execute(env, s, 0)
    else Keep(s, b)
  }

  /** What one iteration of the loop finds: a received byte, perhaps, and whether the transmitter is ready. */
  datatype Event = Event(rx: Option<u8>, txReady: bool)

  function Receive(env: Env, s: Station, rx: Option<u8>): (r: Station)
    requires ValidEnv(env) && ValidStation(s)
    ensures ValidStation(r)
  {
    match rx
    case None => s
    case Some(b) =>
      if s.rxPtr >= RXBUFSZ then s.(txPtr := 0, txLeft := 1, tx := s.tx[0 := RES_OVERFLOW])
      else ReceiveByte(env, s, b)
  }

  function Send(s: Station): (r: Station)
    requires ValidStation(s)
    ensures ValidStation(r)
  {
    if s.txLeft > 0 then
      s.(sent := s.sent + [Sent(s.tx[s.txPtr], s.baud)], txPtr := s.txPtr + 1, txLeft := s.txLeft - 1)
    else
      match s.change
      case Changing => s.(change := Waiting, oldBaud := s.baud, baud := s.newBaud)
      case Resetting => s.(change := Idle, baud := s.oldBaud, oldBaud := 0)
      case _ => s
  }

  /** `bl_loop_poll` */
  function Poll(env: Env, s: Station, e: Event): (r: Station)
    requires ValidEnv(env) && ValidStation(s)
    ensures ValidStation(r)
  {
    var s1 := Receive(env, s, e.rx);
    if e.txReady then Send(s1) else s1
  }

  /** Any number of iterations. Staying valid, every index stays within its buffer throughout. */
  function Run(env: Env, s: Station, es: seq<Event>): (r: Station)
    requires ValidEnv(env) && ValidStation(s)
    ensures ValidStation(r)
    decreases |es|
  {
    if es == [] then s else Run(env, Poll(env, s, es[0]), es[1..])
  }
}
