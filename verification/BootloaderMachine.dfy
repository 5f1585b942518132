/** What each callback of `Bootloader` does, as functions of its cells and of the operations it starts. */
module BootloaderMachine {
  import opened Bytes
  import opened Framing
  import Crc
  import Commands
  import CommandDecoding
  import R = Responses

  const SLOT := 64
  const INFO_LEN := 195

  /** Where the linker put things. */
  datatype Config = Config(flagsAddress: nat, attributesAddress: nat, bootloaderAddress: u32, bootloaderEnd: u32)

  datatype State =
    | Idle
    | Info
    | ErasePage
    | GetAttribute(index: u8)
    | SetAttribute(index: u8)
    | SetStartAddress(start: u32)
    | WriteFlashPage
    | ReadRange(address: u32, length: u16, remaining: u16)
    | Crc(crcAddress: u32, crcRemaining: u32, crc: bv32)

  /** The UART owns the command buffer while it sends or listens. */
  datatype Line = Silent | Sending(out: seq<u8>, length: nat) | Listening(buffer: seq<u8>)

  /** The flash owns the page buffer while it reads or writes. */
  datatype FlashOp = NoOp | Reading(index: nat, page: seq<u8>) | Writing(index: nat, page: seq<u8>) | Erasing(index: nat)

  datatype Machine = Machine(
    state: State, buffer: Option<seq<u8>>, page: Option<seq<u8>>, line: Line, op: FlashOp, exits: nat)

  function Wrap32(n: nat): u32 {
    n % 0x1_0000_0000
  }

  // ---- starting operations ------------------------------------------------------

  function Listen(m: Machine, buffer: seq<u8>): Machine {
    m.(line := Listening(buffer))
  }

  function Transmit(m: Machine, buffer: seq<u8>, reply: seq<u8>): Machine
    requires |reply| <= |buffer|
  {
    m.(line := Sending(reply + buffer[|reply|..], |reply|))
  }

  /** `self.page_buffer.take().map(|page| self.flash.read_page(address / page.len(), page))` */
  function StartRead(m: Machine, address: nat): Machine
    requires m.page.Some? ==> m.page.value != []
  {
    if m.page.None? then m
    else m.(page := None, op := Reading(address / |m.page.value|, m.page.value))
  }

  // ---- `received_buffer` ----------------------------------------------------------

  /** What the decoding loop ends with. */
  datatype Action = Nothing | Perform(command: Commands.Command) | Reject(error: Error) | Panics

  /** The loop skips Reset commands and stops at the first other command or error. */
  function FirstAction(d: CommandDecoding.Decoder, bytes: seq<u8>): Action
    decreases |bytes|
  {
    if bytes == [] then Nothing
    else
      var (d1, outcome) := CommandDecoding.Step(d, bytes[0]);
      match outcome
      case Quiet => FirstAction(d1, bytes[1..])
      case Got(c) => if c.Reset? then FirstAction(d1, bytes[1..]) else Perform(c)
      case Failed(e) => Reject(e)
      case Panicked => Panics
  }

  /** Eight bytes of key, the length, and the value cut or padded to 55 bytes. */
  function AttributeSlot(key: seq<u8>, value: seq<u8>): (s: seq<u8>)
    requires |key| == 8 && |value| < 256
    ensures |s| == SLOT
  {
    var n := Min(|value|, 55);
    key + [|value| as u8] + value[..n] + seq(55 - n, _ => 0)
  }

  predicate Protected(cfg: Config, address: u32) {
    cfg.bootloaderAddress <= address < cfg.bootloaderEnd
  }

  function AttributeAddress(cfg: Config, index: u8): nat {
    cfg.attributesAddress + (index as nat) * SLOT
  }

  /** What handling a command writes into the command buffer at once. */
  function RoomFor(c: Commands.Command): nat {
    if c.SetAttr? then SLOT else 2
  }

  predicate Roomy(m: Machine, buffer: seq<u8>, a: Action) {
    && (m.page.Some? ==> m.page.value != [])
    && match a
       case Perform(c) => |buffer| >= RoomFor(c)
       case Reject(_) => |buffer| >= 2
       case _ => true
  }

  /** A command, with the command buffer in hand. */
  function HandleCommand(cfg: Config, m: Machine, buffer: seq<u8>, c: Commands.Command): Machine
    requires Roomy(m, buffer, Perform(c)) && Commands.WellFormed(c)
  {
    var kept := m.(buffer := Some(buffer));
    match c
    case Ping => Transmit(m, buffer, [ESCAPE_CHAR, R.RES_PONG])
    case Reset => Listen(m, buffer)
    case Info => StartRead(kept.(state := Info), cfg.flagsAddress)
    case ReadRange(address, length) =>
      StartRead(kept.(state := ReadRange(address, length, length)), address)
    case WritePage(address, data) =>
      if m.page.None? then m
      else if |m.page.value| != |data| then
        Transmit(m.(state := Idle), buffer, [ESCAPE_CHAR, R.RES_BADARGS])
      else if Protected(cfg, address) then
        Transmit(m.(state := Idle), buffer, [ESCAPE_CHAR, R.RES_BADADDR])
      else
        kept.(state := WriteFlashPage, page := None, op := Writing(address / |data|, data))
    case ErasePage(address) =>
      var pageSize := if m.page.Some? then |m.page.value| else 512;
      kept.(state := ErasePage, op := Erasing(address / pageSize))
    case CrcIntFlash(address, length) =>
      StartRead(kept.(state := Crc(address, length, 0xFFFF_FFFF)), address)
    case GetAttr(index) =>
      StartRead(kept.(state := GetAttribute(index)), AttributeAddress(cfg, index))
    case SetAttr(index, key, value) =>
      var slot := AttributeSlot(key, value);
      StartRead(m.(state := SetAttribute(index), buffer := Some(slot + buffer[SLOT..])), AttributeAddress(cfg, index))
    case SetStartAddress(address) =>
      StartRead(kept.(state := SetStartAddress(address)), cfg.flagsAddress)
    case Exit => Listen(m.(exits := m.exits + 1), buffer)
    case _ => Transmit(m, buffer, [ESCAPE_CHAR, R.RES_UNKNOWN])
  }

  function Handle(cfg: Config, m: Machine, buffer: seq<u8>, a: Action): Machine
    requires Roomy(m, buffer, a) && !a.Panics? && (a.Perform? ==> Commands.WellFormed(a.command))
  {
    match a
    case Nothing => Listen(m, buffer)
    case Perform(c) => HandleCommand(cfg, m, buffer, c)
    case Reject(e) =>
      Transmit(m, buffer, [ESCAPE_CHAR, if e == BadArguments then R.RES_BADARGS else R.RES_INTERROR])
  }

  // ---- `transmitted_buffer` --------------------------------------------------------

  function Transmitted(m: Machine, buffer: seq<u8>): Machine
    requires m.page.Some? ==> m.page.value != []
  {
    match m.state
    case ReadRange(address, _, remaining) =>
      if remaining == 0 then Listen(m.(state := Idle), buffer)
      else StartRead(m.(buffer := Some(buffer)), address)
    case _ => Listen(m, buffer)
  }

  // ---- `read_complete` ---------------------------------------------------------------

  function Ascii(s: string): (b: seq<u8>)
    ensures |b| == |s|
  {
    seq(|s|, i requires 0 <= i < |s| => (s[i] as int) % 256)
  }

  /** The version string: at most eight bytes, up to a zero. */
  function Version(field: seq<u8>): (v: seq<u8>)
    ensures |v| <= |field|
  {
    if field == [] || field[0] == 0 then [] else [field[0]] + Version(field[1..])
  }

  function HexDigit(n: nat): u8
    requires n < 16
  {
    if n < 10 then 0x30 + n else 0x61 + n - 10
  }

  /** The eight digits of a little-endian word, most significant first, as the loop extracts them. */
  function HexDigits(word: seq<u8>): (s: seq<u8>)
    requires |word| == 4
    ensures |s| == 8
  {
    seq(8, i requires 0 <= i < 8 =>
      HexDigit(if i % 2 == 0 then word[3 - i / 2] / 16 else word[3 - i / 2] % 16))
  }

  function JsonVersion(): (t: seq<u8>)
    ensures |t| == 12
  {
    Ascii("{\"version\":\"")
  }

  function JsonStart(): (t: seq<u8>)
    ensures |t| == 22
  {
    Ascii("\", \"start_address\":\"0x")
  }

  function JsonComma(): (t: seq<u8>)
    ensures |t| == 3
  {
    Ascii("\", ")
  }

  function JsonName(): (t: seq<u8>)
    ensures |t| == 25
  {
    Ascii("\"name\":\"Tock Bootloader\"}")
  }

  function InfoJson(flags: seq<u8>): (s: seq<u8>)
    requires |flags| == 36
    ensures |s| == 70 + |Version(flags[14..22])| <= 78
  {
    JsonVersion() + Version(flags[14..22]) + JsonStart() + HexDigits(flags[32..36]) + JsonComma() + JsonName()
  }

  /** The 195 bytes of an information reply: the byte after the text is whatever the buffer held there. */
  function InfoReply(flags: seq<u8>, stale: u8): (s: seq<u8>)
    requires |flags| == 36
    ensures |s| == INFO_LEN
  {
    var json := InfoJson(flags);
    [ESCAPE_CHAR, R.RES_INFO, |json| as u8] + json + [stale] + seq(INFO_LEN - 4 - |json|, _ => 0)
  }

  /** How many bytes the copy loop takes before the buffer has less than two free. */
  function FillCount(src: seq<u8>, index: nat, size: nat): (n: nat)
    ensures n <= |src|
  {
    if src == [] || index >= size - 1 then 0
    else 1 + FillCount(src[1..], index + |EscapeByte(src[0])|, size)
  }

  /** One buffer of a range reply. */
  datatype Chunk = Chunk(copied: nat, out: seq<u8>)

  function RangeHeader(first: bool): seq<u8> {
    if first then [ESCAPE_CHAR, R.RES_RRANGE] else []
  }

  /** What of the page can be part of this buffer. */
  function Candidate(page: seq<u8>, offset: nat, remaining: nat, free: nat): (src: seq<u8>)
    requires offset < |page|
    ensures |src| <= Min(|page| - offset, remaining) && page[offset..offset + |src|] == src
    ensures remaining > 0 && free > 0 ==> src != []
  {
    page[offset..offset + Min(Min(|page| - offset, remaining), free)]
  }

  function RangeChunk(page: seq<u8>, offset: nat, remaining: nat, first: bool, size: nat): (c: Chunk)
    requires offset < |page| && size >= 4
  {
    var header := RangeHeader(first);
    var src := Candidate(page, offset, remaining, size - |header|);
    var copied := FillCount(src, |header|, size);
    Chunk(copied, header + Escape(src[..copied]))
  }

  lemma ChunkIs(page: seq<u8>, offset: nat, remaining: nat, first: bool, size: nat, src: seq<u8>, copied: nat)
    requires offset < |page| && size >= 4 && src == Candidate(page, offset, remaining, size - |RangeHeader(first)|)
    requires copied == FillCount(src, |RangeHeader(first)|, size)
    ensures RangeChunk(page, offset, remaining, first, size)
      == Chunk(copied, RangeHeader(first) + Escape(src[..copied]))
  {
  }

  lemma {:induction false} FillFits(src: seq<u8>, index: nat, size: nat)
    requires index <= size
    ensures index + |Escape(src[..FillCount(src, index, size)])| <= size
    ensures src != [] && index < size - 1 ==> FillCount(src, index, size) >= 1
    ensures FillCount(src, index, size) == |src|
      || index + |Escape(src[..FillCount(src, index, size)])| >= size - 1
    decreases |src|
  {
    if src != [] && index < size - 1 {
      var n := FillCount(src, index, size);
      assert src[..n][1..] == src[1..][..n - 1];
      FillFits(src[1..], index + |EscapeByte(src[0])|, size);
    }
  }

  /** `copied` bytes of `src` are in, escaped, from `start` to `index`, and the loop would take the rest from there. */
  ghost predicate Filled(b: seq<u8>, orig: seq<u8>, start: nat, src: seq<u8>, copied: nat, index: nat) {
    && copied <= |src| && |b| == |orig|
    && index == start + |Escape(src[..copied])| <= |orig|
    && b == Splice(orig, start, Escape(src[..copied]))
    && FillCount(src, start, |orig|) == copied + FillCount(src[copied..], index, |orig|)
  }

  lemma FillStarts(orig: seq<u8>, start: nat, src: seq<u8>)
    requires start <= |orig|
    ensures Filled(orig, orig, start, src, 0, start)
  {
    assert src[0..] == src && Escape(src[..0]) == [];
  }

  lemma FillStops(b: seq<u8>, orig: seq<u8>, start: nat, src: seq<u8>, copied: nat, index: nat)
    requires Filled(b, orig, start, src, copied, index) && (copied == |src| || index >= |b| - 1)
    ensures copied == FillCount(src, start, |b|)
  {
  }

  lemma FillMore(src: seq<u8>, copied: nat, index: nat, size: nat, orig: seq<u8>, start: nat)
    requires copied < |src| && index < size - 1 && |orig| == size
    requires index == start + |Escape(src[..copied])|
    ensures var more := EscapeByte(src[copied]);
      && Escape(src[..copied + 1]) == Escape(src[..copied]) + more
      && FillCount(src[copied..], index, size) == 1 + FillCount(src[copied + 1..], index + |more|, size)
      && Splice(Splice(orig, start, Escape(src[..copied])), index, more)
         == Splice(orig, start, Escape(src[..copied + 1]))
  {
    assert src[..copied + 1] == src[..copied] + [src[copied]];
    EscapeAppend(src[..copied], src[copied]);
    assert src[copied..][0] == src[copied] && src[copied..][1..] == src[copied + 1..];
  }

  lemma PrefixOfSlice(s: seq<u8>, at: nat, n: nat, k: nat)
    requires at + n <= |s| && k <= n
    ensures s[at..at + n][..k] == s[at..at + k]
  {
  }

  /** A chunk fits the buffer, takes at least a byte while there is one to take, and leaves at most one byte of the
      buffer unused unless page or range end with it. */
  lemma ChunkFits(page: seq<u8>, offset: nat, remaining: nat, first: bool, size: nat)
    requires offset < |page| && size >= 4
    ensures var c := RangeChunk(page, offset, remaining, first, size);
      && c.copied <= Min(|page| - offset, remaining) && |c.out| <= size
      && (c.copied == Min(|page| - offset, remaining) || |c.out| >= size - 1)
      && (remaining > 0 ==> c.copied >= 1)
      && c.out == RangeHeader(first) + Escape(page[offset..offset + c.copied])
  {
    hide Escape, FillCount, EscapeByte;
    var start := |RangeHeader(first)|;
    var src := Candidate(page, offset, remaining, size - start);
    var n := CopiesSome(src, start, size);
    assert RangeChunk(page, offset, remaining, first, size) == Chunk(n, RangeHeader(first) + Escape(src[..n]));
    hide *;
    PrefixOfSlice(page, offset, |src|, n);
  }

  lemma CopiesSome(src: seq<u8>, index: nat, size: nat) returns (n: nat)
    requires index < size - 1
    ensures n == FillCount(src, index, size) <= |src|
    ensures index + |Escape(src[..n])| <= size
    ensures src != [] ==> n >= 1
    ensures n == |src| || index + |Escape(src[..n])| >= size - 1
  {
    FillFits(src, index, size);
    n := FillCount(src, index, size);
  }

  /** The attribute or flags slot the current state is about lies within the page. */
  predicate SlotInPage(cfg: Config, m: Machine, page: seq<u8>) {
    && page != []
    && match m.state
       case Info => cfg.flagsAddress % |page| + 36 <= |page|
       case GetAttribute(index) => AttributeAddress(cfg, index) % |page| + SLOT <= |page|
       case SetAttribute(index) => AttributeAddress(cfg, index) % |page| + SLOT <= |page|
       case SetStartAddress(_) => (cfg.flagsAddress + 32) % |page| + 4 <= |page|
       case _ => true
  }

  /** What answering in a state writes into the command buffer. */
  function NeededRoom(state: State): nat {
    match state
    case Info => INFO_LEN
    case GetAttribute(_) => 2 + 2 * SLOT
    case SetAttribute(_) => SLOT
    case ReadRange(_, _, _) => 4
    case Crc(_, _, _) => 6
    case _ => 2
  }

  predicate HasRoom(m: Machine, n: nat) {
    m.buffer.Some? ==> |m.buffer.value| >= n
  }

  /** The page buffer comes home and the command buffer leaves. */
  function Home(m: Machine, page: seq<u8>): Machine {
    m.(buffer := None, page := Some(page))
  }

  function InfoRead(cfg: Config, m: Machine, page: seq<u8>): Machine
    requires m.buffer.Some? && HasRoom(m, INFO_LEN) && page != [] && cfg.flagsAddress % |page| + 36 <= |page|
  {
    var at := cfg.flagsAddress % |page|;
    var flags, buffer := page[at..at + 36], m.buffer.value;
    Transmit(Home(m, page).(state := Idle), buffer, InfoReply(flags, buffer[3 + |InfoJson(flags)|]))
  }

  function AttributeRead(m: Machine, page: seq<u8>, at: nat): Machine
    requires m.buffer.Some? && HasRoom(m, 2 + 2 * SLOT) && at + SLOT <= |page|
  {
    Transmit(Home(m, page).(state := Idle), m.buffer.value, ResponseFrame(R.RES_GATTR, page[at..at + SLOT]))
  }

  /** The page just read, with `data` put at `address`, is written back. */
  function WriteBack(m: Machine, page: seq<u8>, address: nat, data: seq<u8>): Machine
    requires page != [] && address % |page| + |data| <= |page|
  {
    m.(op := Writing(address / |page|, Splice(page, address % |page|, data)))
  }

  /** A chunk is sent; the address and the count move on by what was copied. */
  function SendChunk(m: Machine, page: seq<u8>, chunk: Chunk, address: u32, length: u16, remaining: u16): Machine
    requires m.buffer.Some? && chunk.copied <= remaining && |chunk.out| <= |m.buffer.value|
  {
    var left: u16 := remaining - chunk.copied;
    Transmit(
      Home(m, page).(state := ReadRange(Wrap32(address + chunk.copied), length, left)), m.buffer.value, chunk.out)
  }

  function RangeRead(m: Machine, page: seq<u8>, at: nat, address: u32, length: u16, remaining: u16): Machine
    requires m.buffer.Some? && |m.buffer.value| >= 4 && at < |page|
  {
    ChunkFits(page, at, remaining, length == remaining, |m.buffer.value|);
    SendChunk(m, page, RangeChunk(page, at, remaining, length == remaining, |m.buffer.value|), address, length, remaining)
  }

  /** The four bytes of a CRC, sent as they are. */
  function CrcReply(crc: bv32): (s: seq<u8>)
    ensures |s| == 6
  {
    [ESCAPE_CHAR, R.RES_CRCIF] + Crc.RegisterBytes(crc)
  }

  /** How much of the range lies in this page. */
  function Portion(pageSize: nat, address: nat, remaining: nat): (n: nat)
    requires pageSize > 0
    ensures n <= remaining && address % pageSize + n <= pageSize
    ensures remaining > 0 ==> n > 0
  {
    Min(pageSize - address % pageSize, remaining)
  }

  function PageCrc(crc: bv32, page: seq<u8>, address: nat, remaining: nat): bv32
    requires page != []
  {
    var at := address % |page|;
    Crc.Fold(Crc.TableStep, crc, page[at..at + Portion(|page|, address, remaining)])
  }

  function ReadOn(m: Machine, page: seq<u8>, address: nat): Machine
    requires page != []
  {
    m.(op := Reading(address / |page|, page))
  }

  function CrcRead(m: Machine, page: seq<u8>, address: u32, remaining: u32, crc: bv32): Machine
    requires HasRoom(m, 6) && page != []
  {
    var len := Portion(|page|, address, remaining);
    var crc1 := PageCrc(crc, page, address, remaining);
    if remaining == len then
      if m.buffer.None? then m.(state := Idle)
      else Transmit(Home(m, page).(state := Idle), m.buffer.value, CrcReply(Crc.Complement(crc1)))
    else
      var next := Wrap32(address + len);
      ReadOn(m.(state := Crc(next, remaining - len, crc1)), page, next)
  }

  function ReadComplete(cfg: Config, m: Machine, page: seq<u8>): Machine
    requires SlotInPage(cfg, m, page) && HasRoom(m, NeededRoom(m.state))
  {
    match m.state
    case Info => if m.buffer.None? then m.(state := Idle) else InfoRead(cfg, m, page)
    case GetAttribute(index) =>
      if m.buffer.None? then m.(state := Idle)
      else AttributeRead(m, page, AttributeAddress(cfg, index) % |page|)
    case SetAttribute(index) =>
      if m.buffer.None? then m
      else WriteBack(m, page, AttributeAddress(cfg, index), m.buffer.value[..SLOT])
    case SetStartAddress(start) => WriteBack(m, page, cfg.flagsAddress + 32, LeU32(start))
    case ReadRange(address, length, remaining) =>
      if m.buffer.None? then m else RangeRead(m, page, address % |page|, address, length, remaining)
    case Crc(address, remaining, crc) => CrcRead(m, page, address, remaining, crc)
    case _ => m
  }

  // ---- `write_complete` and `erase_complete` --------------------------------------------

  function Confirm(m: Machine): Machine
    requires HasRoom(m, 2)
  {
    if m.buffer.None? then m.(state := Idle)
    else Transmit(m.(state := Idle, buffer := None), m.buffer.value, [ESCAPE_CHAR, R.RES_OK])
  }

  function ListenAgain(m: Machine): Machine {
    if m.buffer.None? then m else Listen(m.(buffer := None), m.buffer.value)
  }

  function WriteComplete(m: Machine, page: seq<u8>): Machine
    requires HasRoom(m, 2)
  {
    var m1 := m.(page := Some(page));
    match m.state
    case WriteFlashPage => Confirm(m1)
    case SetAttribute(_) => Confirm(m1)
    case SetStartAddress(_) => Confirm(m1)
    case _ => ListenAgain(m1)
  }

  function EraseComplete(m: Machine): Machine
    requires HasRoom(m, 2)
  {
    match m.state
    case ErasePage => Confirm(m)
    case _ => ListenAgain(m)
  }
}
