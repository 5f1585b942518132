/** What a host sees of the bootloader: commands on a flat memory, and their replies. */
module BootloaderCommands {
  import opened Bytes
  import opened Framing
  import opened BootloaderMachine
  import opened BootloaderRuns
  import Crc
  import C = Commands
  import D = CommandDecoding
  import T = CommandRoundTrip
  import R = Responses

  // ---- the flat-memory interpreter --------------------------------------------------

  /** The command buffer a command and its answer need. */
  function BufferFor(c: C.Command): nat {
    match c
    case Info => INFO_LEN
    case GetAttr(_) => 2 + 2 * SLOT
    case SetAttr(_, _, _) => SLOT
    case CrcIntFlash(_, _) => 6
    case _ => 2
  }

  /** What the command touches lies in the flash, and attributes and flags in one page: the bootloader itself does
      not check this. */
  predicate Serviceable(cfg: Config, z: Sizes, size: nat, c: C.Command)
    requires z.page > 0
  {
    && BufferFor(c) <= z.buffer
    && match c
       case Info => InOnePage(z, size, cfg.flagsAddress, 36)
       case SetStartAddress(_) => InOnePage(z, size, cfg.flagsAddress, 36)
       case ReadRange(address, length) => address < size && address + length <= size
       case CrcIntFlash(address, length) => address < size && address + length <= size
       case WritePage(address, _) => address < size
       case ErasePage(address) => address < size
       case GetAttr(index) => InOnePage(z, size, AttributeAddress(cfg, index), SLOT)
       case SetAttr(index, _, _) => InOnePage(z, size, AttributeAddress(cfg, index), SLOT)
       case _ => true
  }

  predicate Writable(cfg: Config, z: Sizes, address: u32, data: seq<u8>) {
    |data| == z.page && !Protected(cfg, address)
  }

  /** The memory after a command. */
  function NextMem(cfg: Config, z: Sizes, mem: seq<u8>, c: C.Command): (next: seq<u8>)
    requires ValidSizes(z, |mem|) && C.WellFormed(c) && Serviceable(cfg, z, |mem|, c)
    ensures |next| == |mem|
  {
    match c
    case WritePage(address, data) =>
      InItsPage(z.page, |mem|, address);
      if Writable(cfg, z, address, data) then Splice(mem, PageStart(z.page, address / z.page), data) else mem
    case ErasePage(address) =>
      InItsPage(z.page, |mem|, address);
      Splice(mem, PageStart(z.page, address / z.page), seq(z.page, _ => 0xFF))
    case SetAttr(index, key, value) => Splice(mem, AttributeAddress(cfg, index), AttributeSlot(key, value))
    case SetStartAddress(address) => Splice(mem, cfg.flagsAddress + 32, LeU32(address))
    case _ => mem
  }

  function FlagsOf(cfg: Config, mem: seq<u8>): (flags: seq<u8>)
    requires cfg.flagsAddress + 36 <= |mem|
    ensures |flags| == 36
  {
    mem[cfg.flagsAddress..cfg.flagsAddress + 36]
  }

  /** The byte of the command buffer just behind where the information text goes: the one byte of the information
      reply that is not written. */
  function LeftOver(cfg: Config, mem: seq<u8>, buffer: seq<u8>): u8
    requires cfg.flagsAddress + 36 <= |mem| && |buffer| >= INFO_LEN
  {
    buffer[3 + |InfoJson(FlagsOf(cfg, mem))|]
  }

  /** The reply to a command that came in `buffer`. */
  function Reply(cfg: Config, z: Sizes, mem: seq<u8>, c: C.Command, buffer: seq<u8>): (reply: seq<u8>)
    requires ValidSizes(z, |mem|) && Serviceable(cfg, z, |mem|, c) && |buffer| == z.buffer
  {
    match c
    case Ping => R.Wire(R.Pong)
    case Info => InfoReply(FlagsOf(cfg, mem), LeftOver(cfg, mem, buffer))
    case Reset => []
    case Exit => []
    case ErasePage(_) => R.Wire(R.Okay)
    case WritePage(address, data) =>
      if |data| != z.page then R.Wire(R.BadArguments)
      else if Protected(cfg, address) then R.Wire(R.BadAddress)
      else R.Wire(R.Okay)
    case ReadRange(address, length) => R.Wire(R.ReadRange(mem[address..address + length]))
    case CrcIntFlash(address, length) => CrcReply(Crc.Crc32(0, mem[address..address + length]))
    case GetAttr(index) =>
      var at := AttributeAddress(cfg, index);
      ResponseFrame(R.RES_GATTR, mem[at..at + SLOT])
    case SetAttr(_, _, _) => R.Wire(R.Okay)
    case SetStartAddress(_) => R.Wire(R.Okay)
    case _ => R.Wire(R.Unknown)
  }

  /** A buffer after others were laid over it from the front, one after the other. */
  function LaidOver(buffer: seq<u8>, parts: seq<seq<u8>>): (r: seq<u8>)
    ensures |r| == |buffer|
    decreases |parts|
  {
    if parts == [] then buffer else LaidOver(Overwritten(buffer, parts[0]), parts[1..])
  }

  /** What a command leaves in the command buffer it came in. */
  function NextBuffer(cfg: Config, z: Sizes, mem: seq<u8>, c: C.Command, buffer: seq<u8>): (next: seq<u8>)
    requires ValidSizes(z, |mem|) && Serviceable(cfg, z, |mem|, c) && C.WellFormed(c) && |buffer| == z.buffer
    ensures |next| == |buffer|
  {
    match c
    case SetAttr(_, key, value) =>
      Overwritten(Overwritten(buffer, AttributeSlot(key, value)), R.Wire(R.Okay))
    case ReadRange(address, length) =>
      LaidOver(buffer, RangeBuffers(mem, z.page, address, length, true, z.buffer))
    case _ => Overwritten(buffer, Reply(cfg, z, mem, c, buffer))
  }

  /** `received_buffer` while the receive was armed. */
  function Deliver(cfg: Config, z: Sizes, w: World, buffer: seq<u8>, a: Action): World
    requires Inv(cfg, z, w) && Armed(w) && |buffer| == z.buffer && Roomy(w.m, buffer, a)
    requires !a.Panics? && (a.Perform? ==> C.WellFormed(a.command))
  {
    World(Handle(cfg, w.m.(line := Silent), buffer, a), w.mem, w.sent)
  }

  // ---- steps of a run ------------------------------------------------------------------

  lemma OneStep(cfg: Config, z: Sizes, w: World) returns (w1: World)
    requires Inv(cfg, z, w) && !Armed(w)
    ensures w1 == Advance(cfg, z, w) && Inv(cfg, z, w1) && Settle(cfg, z, w) == Settle(cfg, z, w1)
    ensures Transmissions(cfg, z, w)
      == if w.m.line.Sending? then [w.m.line.out[..w.m.line.length]] + Transmissions(cfg, z, w1)
         else Transmissions(cfg, z, w1)
  {
    AdvanceKeeps(cfg, z, w);
    w1 := Advance(cfg, z, w);
  }

  lemma SentStep(cfg: Config, z: Sizes, w: World) returns (w1: World)
    requires Inv(cfg, z, w) && w.m.line.Sending?
    ensures Inv(cfg, z, w1) && Settle(cfg, z, w) == Settle(cfg, z, w1)
    ensures Transmissions(cfg, z, w) == [w.m.line.out[..w.m.line.length]] + Transmissions(cfg, z, w1)
    ensures w1 == World(Transmitted(w.m.(line := Silent), w.m.line.out), w.mem, w.sent + w.m.line.out[..w.m.line.length])
  {
    hide Settle, Transmissions;
    w1 := OneStep(cfg, z, w);
  }

  /** The last buffer of a reply is sent and the receive is armed. */
  lemma LastSend(cfg: Config, z: Sizes, w: World)
    requires Inv(cfg, z, w) && w.m.line.Sending?
    requires w.m.state.ReadRange? ==> w.m.state.remaining == 0
    ensures var r := Settle(cfg, z, w);
      && r.mem == w.mem && r.sent == w.sent + w.m.line.out[..w.m.line.length] && r.m.exits == w.m.exits
      && r.m.line == Listening(w.m.line.out)
  {
    hide Advance;
    var w1 := SentStep(cfg, z, w);
  }

  // ---- ranges ---------------------------------------------------------------------------

  /** After the next buffer of a range: either the receive is armed, or the rest is being read. */
  ghost predicate RangeMoved(w: World, w2: World, n: nat, out: seq<u8>)
    requires w.m.state.ReadRange? && w.m.buffer.Some?
  {
    && n <= w.m.state.remaining && (w.m.state.remaining > 0 ==> n >= 1)
    && w2.mem == w.mem && w2.m.exits == w.m.exits
    && if n == w.m.state.remaining then w2.m.line == Listening(Overwritten(w.m.buffer.value, out))
       else
         && w2.m.line.Silent? && w2.m.op.Reading? && w2.m.buffer == Some(Overwritten(w.m.buffer.value, out))
         && w2.m.state == ReadRange(Wrap32(w.m.state.address + n), w.m.state.length, w.m.state.remaining - n)
  }

  lemma RangeMoves(cfg: Config, z: Sizes, w: World) returns (w2: World, n: nat, out: seq<u8>)
    requires Inv(cfg, z, w) && w.m.line.Silent? && w.m.op.Reading? && w.m.state.ReadRange?
    ensures Inv(cfg, z, w2) && Settle(cfg, z, w) == Settle(cfg, z, w2) && RangeMoved(w, w2, n, out)
    ensures Transmissions(cfg, z, w) == [out] + Transmissions(cfg, z, w2)
    ensures w.m.state.address + w.m.state.remaining <= |w.mem| && w.m.state.address < |w.mem|
    ensures n < w.m.state.remaining ==> w.m.state.address + n < |w.mem|
    ensures RangeBuffers(w.mem, z.page, w.m.state.address, w.m.state.remaining,
        w.m.state.length == w.m.state.remaining, z.buffer)
      == if n == w.m.state.remaining then [out]
         else [out] + RangeBuffers(w.mem, z.page, w.m.state.address + n, w.m.state.remaining - n, false, z.buffer)
  {
    hide Settle, Advance, Transmissions, RangeBuffers, Overwritten;
    var chunk, page := RangeStep(cfg, z, w);
    n, out := chunk.copied, chunk.out;
    var w1 := OneStep(cfg, z, w);
    OverwrittenFits(w.m.buffer.value, out);
    assert w1.m.line.out[..w1.m.line.length] == out;
    w2 := SentStep(cfg, z, w1);
  }

  /** Over a whole run the machine transmits exactly the buffers of `RangeBuffers`, whatever the page size and with
      any command buffer of at least four bytes, and changes nothing. */
  lemma {:induction false} RangeTransmits(cfg: Config, z: Sizes, w: World)
    requires Inv(cfg, z, w) && w.m.line.Silent? && w.m.op.Reading? && w.m.state.ReadRange?
    ensures w.m.state.address + w.m.state.remaining <= |w.mem| && w.m.state.address < |w.mem|
    ensures var buffers := RangeBuffers(w.mem, z.page, w.m.state.address, w.m.state.remaining,
        w.m.state.length == w.m.state.remaining, z.buffer);
      && Transmissions(cfg, z, w) == buffers
      && Settle(cfg, z, w).m.line == Listening(LaidOver(w.m.buffer.value, buffers))
    ensures Settle(cfg, z, w).mem == w.mem && Settle(cfg, z, w).m.exits == w.m.exits
    decreases w.m.state.remaining
  {
    hide Advance, RangeBuffers;
    var w2, n, out := RangeMoves(cfg, z, w);
    if n < w.m.state.remaining {
      hide Settle, Transmissions;
      RangeTransmits(cfg, z, w2);
      var later := Transmissions(cfg, z, w2);
      assert ([out] + later)[0] == out && ([out] + later)[1..] == later;
    } else {
      var none: seq<seq<u8>> := [];
      assert [out] + none == [out] && [out][1..] == none;
    }
  }

  /** So what is sent over the run is one header and the escaped bytes of exactly the range. */
  lemma RangeRuns(cfg: Config, z: Sizes, w: World)
    requires Inv(cfg, z, w) && w.m.line.Silent? && w.m.op.Reading? && w.m.state.ReadRange?
    ensures var (address, length, remaining) := (w.m.state.address, w.m.state.length, w.m.state.remaining);
      && address + remaining <= |w.mem|
      && Settle(cfg, z, w).sent
         == w.sent + (RangeHeader(length == remaining) + Escape(w.mem[address..address + remaining]))
  {
    hide Settle, Advance, Transmissions, RangeBuffers, Escape, Flatten, LaidOver, Consistent;
    RangeTransmits(cfg, z, w);
    SentIsTransmissions(cfg, z, w);
    RangeBuffersJoin(w.mem, z.page, w.m.state.address, w.m.state.remaining,
      w.m.state.length == w.m.state.remaining, z.buffer);
  }

  // ---- CRCs ----------------------------------------------------------------------------------

  function FoldOver(crc: bv32, mem: seq<u8>, address: nat, n: nat): bv32
    requires address + n <= |mem|
  {
    Crc.Fold(Crc.TableStep, crc, mem[address..address + n])
  }

  lemma FoldSplits(crc: bv32, mem: seq<u8>, address: nat, n: nat, total: nat)
    requires n <= total && address + total <= |mem|
    ensures FoldOver(crc, mem, address, total) == FoldOver(FoldOver(crc, mem, address, n), mem, address + n, total - n)
  {
    Crc.FoldConcat(Crc.TableStep, crc, mem[address..address + n], mem[address + n..address + total]);
    assert mem[address..address + total] == mem[address..address + n] + mem[address + n..address + total];
  }

  /** The UART sends `reply` from the front of what was `buffer`. */
  ghost predicate Carries(line: Line, buffer: seq<u8>, reply: seq<u8>) {
    && line.Sending? && line.length <= |line.out| && line.out[..line.length] == reply
    && line.out == Overwritten(buffer, reply)
  }

  lemma TransmitCarries(m: Machine, buffer: seq<u8>, reply: seq<u8>)
    requires |reply| <= |buffer|
    ensures Carries(Transmit(m, buffer, reply).line, buffer, reply)
  {
    OverwrittenFits(buffer, reply);
  }

  /** After one page of a CRC: either the register is on its way out, or the next page is being read. */
  ghost predicate CrcMoved(w: World, w1: World, n: nat)
    requires w.m.state.Crc?
  {
    var (address, remaining, crc) := (w.m.state.crcAddress, w.m.state.crcRemaining, w.m.state.crc);
    && n <= remaining && (remaining > 0 ==> n >= 1) && address + n <= |w.mem|
    && w1.mem == w.mem && w1.sent == w.sent && w1.m.exits == w.m.exits && w.m.buffer.Some?
    && if n == remaining then
         && w1.m.line.Sending? && w1.m.state.Idle?
         && Carries(w1.m.line, w.m.buffer.value, CrcReply(Crc.Complement(FoldOver(crc, w.mem, address, n))))
       else
         && w1.m.line.Silent? && w1.m.op.Reading? && w1.m.buffer == w.m.buffer
         && w1.m.state == Crc(Wrap32(address + n), remaining - n, FoldOver(crc, w.mem, address, n))
  }

  lemma CrcReadIs(m: Machine, page: seq<u8>, address: u32, remaining: u32, crc: bv32, crc1: bv32)
    requires m.buffer.Some? && HasRoom(m, 6) && page != [] && crc1 == PageCrc(crc, page, address, remaining)
    ensures var m1, n := CrcRead(m, page, address, remaining, crc), Portion(|page|, address, remaining);
      && m1.exits == m.exits
      && if n == remaining then
           m1.line.Sending? && m1.state.Idle? && Carries(m1.line, m.buffer.value, CrcReply(Crc.Complement(crc1)))
         else
           && m1.line == m.line && m1.op.Reading? && m1.buffer == m.buffer
           && m1.state == Crc(Wrap32(address + n), remaining - n, crc1)
  {
    hide CrcReply, Crc.Complement, PageCrc;
    TransmitCarries(Home(m, page).(state := Idle), m.buffer.value, CrcReply(Crc.Complement(crc1)));
  }

  lemma CrcMoves(cfg: Config, z: Sizes, w: World) returns (w1: World, n: nat)
    requires Inv(cfg, z, w) && w.m.line.Silent? && w.m.op.Reading? && w.m.state.Crc?
    ensures Inv(cfg, z, w1) && Settle(cfg, z, w) == Settle(cfg, z, w1)
    ensures CrcMoved(w, w1, n)
  {
    hide Settle, Advance, CrcRead, Crc.TableStep, Crc.Fold, Crc.Complement, CrcReply;
    var (address, remaining, crc) := (w.m.state.crcAddress, w.m.state.crcRemaining, w.m.state.crc);
    AdvanceReading(cfg, z, w);
    n := Portion(z.page, address, remaining);
    PageSlice(w.mem, z.page, address, n);
    CrcReadIs(w.m.(op := NoOp), Page(w.mem, z.page, w.m.op.index), address, remaining, crc,
      FoldOver(crc, w.mem, address, n));
    w1 := OneStep(cfg, z, w);
  }

  ghost predicate CrcDone(w: World, r: World)
    requires w.m.state.Crc?
  {
    var (address, remaining, crc) := (w.m.state.crcAddress, w.m.state.crcRemaining, w.m.state.crc);
    && r.mem == w.mem && r.m.exits == w.m.exits && address + remaining <= |w.mem| && w.m.buffer.Some?
    && var reply := CrcReply(Crc.Complement(FoldOver(crc, w.mem, address, remaining)));
    r.sent == w.sent + reply && r.m.line == Listening(Overwritten(w.m.buffer.value, reply))
  }

  lemma CrcComposes(w: World, w1: World, n: nat, r: World)
    requires w.m.state.Crc? && CrcMoved(w, w1, n) && |w.mem| <= 0x1_0000_0000
    requires w.m.state.crcAddress + w.m.state.crcRemaining <= |w.mem|
    requires n < w.m.state.crcRemaining && w1.m.state.Crc? && CrcDone(w1, r)
    ensures CrcDone(w, r)
  {
    hide Crc.TableStep, Crc.Fold, Crc.Complement, FoldOver, CrcReply, Overwritten;
    FoldSplits(w.m.state.crc, w.mem, w.m.state.crcAddress, n, w.m.state.crcRemaining);
  }

  /** The register accumulated page by page is the register taken over the whole range at once. */
  lemma {:induction false} CrcRuns(cfg: Config, z: Sizes, w: World)
    requires Inv(cfg, z, w) && w.m.line.Silent? && w.m.op.Reading? && w.m.state.Crc?
    ensures CrcDone(w, Settle(cfg, z, w))
    decreases w.m.state.crcRemaining
  {
    hide Advance, Settle;
    var w1, n := CrcMoves(cfg, z, w);
    if n == w.m.state.crcRemaining {
      LastSend(cfg, z, w1);
    } else {
      hide CrcDone;
      CrcRuns(cfg, z, w1);
      CrcComposes(w, w1, n, Settle(cfg, z, w1));
    }
  }

  // ---- every command ------------------------------------------------------------------------

  /** The buffer a receive delivers and the command decoded from it. */
  predicate Acceptable(cfg: Config, z: Sizes, w: World, buffer: seq<u8>, c: C.Command) {
    && Inv(cfg, z, w) && Armed(w) && |buffer| == z.buffer && C.WellFormed(c) && Serviceable(cfg, z, |w.mem|, c)
    && Roomy(w.m, buffer, Perform(c))
  }

  /** Handling a command keeps the invariant. */
  lemma DeliverKeeps(cfg: Config, z: Sizes, w: World, buffer: seq<u8>, c: C.Command) returns (w0: World)
    requires Acceptable(cfg, z, w, buffer, c)
    ensures w0 == Deliver(cfg, z, w, buffer, Perform(c)) && Inv(cfg, z, w0)
    ensures w0.mem == w.mem && w0.sent == w.sent
  {
    w0 := Deliver(cfg, z, w, buffer, Perform(c));
    match c
    case WritePage(address, _) => InItsPage(z.page, |w.mem|, address);
    case ErasePage(address) => InItsPage(z.page, |w.mem|, address);
    case _ =>
  }

  /** What the interpreter says about `c` in `buffer`, of the world `r` a run from `w` ends in. */
  ghost predicate Served(cfg: Config, z: Sizes, w: World, c: C.Command, buffer: seq<u8>, r: World)
    requires ValidSizes(z, |w.mem|) && C.WellFormed(c) && Serviceable(cfg, z, |w.mem|, c) && |buffer| == z.buffer
  {
    && r.mem == NextMem(cfg, z, w.mem, c)
    && r.sent == w.sent + Reply(cfg, z, w.mem, c, buffer)
    && r.m.line == Listening(NextBuffer(cfg, z, w.mem, c, buffer))
    && r.m.exits == w.m.exits + (if c.Exit? then 1 else 0)
  }

  predicate IsUnknown(c: C.Command) {
    c.Id? || c.EraseExBlock? || c.WriteExPage? || c.CrcRxBuffer? || c.ExReadRange? || c.CrcExtFlash?
    || c.EraseExPage? || c.ExtFlashInit? || c.ClockOut? || c.WriteFlashUserPages? || c.ChangeBaud?
  }

  lemma AtOnceServed(cfg: Config, z: Sizes, w: World, buffer: seq<u8>, c: C.Command) returns (r: World)
    requires Acceptable(cfg, z, w, buffer, c)
    requires c.Ping? || IsUnknown(c) || (c.WritePage? && !Writable(cfg, z, c.address, c.data))
    ensures Served(cfg, z, w, c, buffer, r)
    ensures Inv(cfg, z, Deliver(cfg, z, w, buffer, Perform(c)))
    ensures r == Settle(cfg, z, Deliver(cfg, z, w, buffer, Perform(c)))
  {
    hide Settle, Advance;
    var w0 := DeliverKeeps(cfg, z, w, buffer, c);
    LastSend(cfg, z, w0);
    r := Settle(cfg, z, w0);
  }

  lemma SilentServed(cfg: Config, z: Sizes, w: World, buffer: seq<u8>, c: C.Command) returns (r: World)
    requires Acceptable(cfg, z, w, buffer, c)
    requires c.Reset? || c.Exit?
    ensures Served(cfg, z, w, c, buffer, r)
    ensures Inv(cfg, z, Deliver(cfg, z, w, buffer, Perform(c)))
    ensures r == Settle(cfg, z, Deliver(cfg, z, w, buffer, Perform(c)))
  {
    hide Advance;
    r := DeliverKeeps(cfg, z, w, buffer, c);
    assert w.sent + [] == w.sent;
  }

  /** The one page of a write or an erase, and nothing else, changes. */
  lemma PageServed(cfg: Config, z: Sizes, w: World, buffer: seq<u8>, c: C.Command) returns (r: World)
    requires Acceptable(cfg, z, w, buffer, c)
    requires (c.WritePage? && Writable(cfg, z, c.address, c.data)) || c.ErasePage?
    ensures Served(cfg, z, w, c, buffer, r)
    ensures Inv(cfg, z, Deliver(cfg, z, w, buffer, Perform(c)))
    ensures r == Settle(cfg, z, Deliver(cfg, z, w, buffer, Perform(c)))
  {
    hide Settle;
    var w0 := DeliverKeeps(cfg, z, w, buffer, c);
    var w1 := OneStep(cfg, z, w0);
    LastSend(cfg, z, w1);
    r := Settle(cfg, z, w1);
  }

  lemma GetServed(cfg: Config, z: Sizes, w: World, buffer: seq<u8>, c: C.Command) returns (r: World)
    requires Acceptable(cfg, z, w, buffer, c)
    requires c.GetAttr?
    ensures Served(cfg, z, w, c, buffer, r)
    ensures Inv(cfg, z, Deliver(cfg, z, w, buffer, Perform(c)))
    ensures r == Settle(cfg, z, Deliver(cfg, z, w, buffer, Perform(c)))
  {
    hide Settle, Advance, Overwritten, Escape;
    var w0 := DeliverKeeps(cfg, z, w, buffer, c);
    AdvanceReading(cfg, z, w0);
    PageSlice(w.mem, z.page, AttributeAddress(cfg, c.index), SLOT);
    var at := AttributeAddress(cfg, c.index);
    OverwrittenFits(buffer, ResponseFrame(R.RES_GATTR, w.mem[at..at + SLOT]));
    var w1 := OneStep(cfg, z, w0);
    LastSend(cfg, z, w1);
    r := Settle(cfg, z, w1);
  }

  /** The page with the flags was read and the reply is on its way. */
  lemma InfoSent(cfg: Config, z: Sizes, w: World, buffer: seq<u8>, c: C.Command) returns (w1: World)
    requires Acceptable(cfg, z, w, buffer, c)
    requires c.Info?
    ensures Inv(cfg, z, Deliver(cfg, z, w, buffer, Perform(c))) && Inv(cfg, z, w1)
    ensures Settle(cfg, z, Deliver(cfg, z, w, buffer, Perform(c))) == Settle(cfg, z, w1)
    ensures w1.mem == w.mem && w1.sent == w.sent && w1.m.exits == w.m.exits && w1.m.state.Idle?
    ensures cfg.flagsAddress + 36 <= |w.mem| && |buffer| >= INFO_LEN
    ensures var reply := InfoReply(FlagsOf(cfg, w.mem), LeftOver(cfg, w.mem, buffer));
      w1.m.line == Sending(reply + buffer[|reply|..], |reply|)
  {
    hide Settle, Advance, InfoReply, InfoJson;
    var w0 := DeliverKeeps(cfg, z, w, buffer, c);
    AdvanceReading(cfg, z, w0);
    PageSlice(w.mem, z.page, cfg.flagsAddress, 36);
    w1 := OneStep(cfg, z, w0);
  }

  lemma InfoServed(cfg: Config, z: Sizes, w: World, buffer: seq<u8>, c: C.Command) returns (r: World)
    requires Acceptable(cfg, z, w, buffer, c)
    requires c.Info?
    ensures Served(cfg, z, w, c, buffer, r)
    ensures Inv(cfg, z, Deliver(cfg, z, w, buffer, Perform(c)))
    ensures r == Settle(cfg, z, Deliver(cfg, z, w, buffer, Perform(c)))
  {
    hide Settle, Deliver, Inv, InfoReply, FlagsOf, LeftOver, Overwritten;
    var w1 := InfoSent(cfg, z, w, buffer, c);
    OverwrittenFits(buffer, InfoReply(FlagsOf(cfg, w.mem), LeftOver(cfg, w.mem, buffer)));
    LastSend(cfg, z, w1);
    r := Settle(cfg, z, w1);
  }

  lemma WriteStep(cfg: Config, z: Sizes, w: World) returns (w1: World)
    requires Inv(cfg, z, w) && w.m.line.Silent? && w.m.op.Writing?
    ensures Inv(cfg, z, w1) && Settle(cfg, z, w) == Settle(cfg, z, w1)
    ensures IsPage(z.page, |w.mem|, w.m.op.index) && |w.m.op.page| == z.page
    ensures w1 == World(WriteComplete(w.m.(op := NoOp), w.m.op.page),
      Splice(w.mem, PageStart(z.page, w.m.op.index), w.m.op.page), w.sent)
  {
    hide Settle;
    w1 := OneStep(cfg, z, w);
  }

  /** A page with `data` at `address`. */
  function Patched(z: Sizes, size: nat, page: seq<u8>, address: nat, data: seq<u8>): seq<u8>
    requires z.page > 0 && |page| == z.page && InOnePage(z, size, address, |data|)
  {
    Splice(page, address % z.page, data)
  }

  /** The page around `address`, with `data` put there, is being written. */
  predicate WritesBack(z: Sizes, w: World, page: seq<u8>, address: nat, data: seq<u8>) {
    && z.page > 0 && InOnePage(z, |w.mem|, address, |data|) && 0 < |data|
    && w.m.line.Silent? && w.m.op.Writing?
    && IsPage(z.page, |w.mem|, address / z.page) && page == Page(w.mem, z.page, address / z.page)
    && w.m.op == Writing(address / z.page, Patched(z, |w.mem|, page, address, data))
  }

  /** The page that was read is written back with `data` at `address`: the memory changes just there. */
  lemma WriteBackStep(cfg: Config, z: Sizes, w: World, page: seq<u8>, address: nat, data: seq<u8>)
    returns (w2: World)
    requires Inv(cfg, z, w) && WritesBack(z, w, page, address, data)
    ensures w2.mem == Splice(w.mem, address, data) && w2.sent == w.sent && w2.m.exits == w.m.exits
    ensures Inv(cfg, z, w2) && Settle(cfg, z, w) == Settle(cfg, z, w2)
    ensures w.m.buffer.Some? && w2.m.state.Idle? && Carries(w2.m.line, w.m.buffer.value, R.Wire(R.Okay))
  {
    hide Settle, Advance, Transmissions, Overwritten, Splice;
    PageSplice(w.mem, z.page, address, data);
    w2 := WriteStep(cfg, z, w);
    OverwrittenFits(w.m.buffer.value, R.Wire(R.Okay));
  }

  /** Then OK is sent and the receive armed. */
  lemma ChangeServed(cfg: Config, z: Sizes, w: World, page: seq<u8>, address: nat, data: seq<u8>) returns (r: World)
    requires Inv(cfg, z, w) && WritesBack(z, w, page, address, data) && w.m.buffer.Some?
    ensures r == Settle(cfg, z, w) && r.m.exits == w.m.exits
    ensures r.mem == Splice(w.mem, address, data) && r.sent == w.sent + R.Wire(R.Okay)
    ensures r.m.line == Listening(Overwritten(w.m.buffer.value, R.Wire(R.Okay)))
  {
    hide Settle, Advance, Transmissions, Overwritten, Splice, Patched;
    var w2 := WriteBackStep(cfg, z, w, page, address, data);
    LastSend(cfg, z, w2);
    r := Settle(cfg, z, w2);
  }

  /** An attribute slot is replaced by reading its page, changing it and writing it back. */
  lemma SetAttrServed(cfg: Config, z: Sizes, w: World, buffer: seq<u8>, c: C.Command) returns (r: World)
    requires Acceptable(cfg, z, w, buffer, c)
    requires c.SetAttr?
    ensures Served(cfg, z, w, c, buffer, r)
    ensures Inv(cfg, z, Deliver(cfg, z, w, buffer, Perform(c)))
    ensures r == Settle(cfg, z, Deliver(cfg, z, w, buffer, Perform(c)))
  {
    hide Settle, Advance, Overwritten, Splice, AttributeSlot;
    var address, data := AttributeAddress(cfg, c.index), AttributeSlot(c.key, c.value);
    var w0 := DeliverKeeps(cfg, z, w, buffer, c);
    OverwrittenFits(buffer, data);
    assert w0.m.buffer.value[..SLOT] == data;
    AdvanceReading(cfg, z, w0);
    var w1 := OneStep(cfg, z, w0);
    r := ChangeServed(cfg, z, w1, Page(w.mem, z.page, address / z.page), address, data);
  }

  /** The start address likewise; it lies in the page the flags start in. */
  lemma SetStartServed(cfg: Config, z: Sizes, w: World, buffer: seq<u8>, c: C.Command) returns (r: World)
    requires Acceptable(cfg, z, w, buffer, c)
    requires c.SetStartAddress?
    ensures Served(cfg, z, w, c, buffer, r)
    ensures Inv(cfg, z, Deliver(cfg, z, w, buffer, Perform(c)))
    ensures r == Settle(cfg, z, Deliver(cfg, z, w, buffer, Perform(c)))
  {
    hide Settle, Advance, Overwritten, Splice, LeU32;
    var address := cfg.flagsAddress + 32;
    var w0 := DeliverKeeps(cfg, z, w, buffer, c);
    SameFlagsPage(cfg, z, |w.mem|);
    AdvanceReading(cfg, z, w0);
    var w1 := OneStep(cfg, z, w0);
    r := ChangeServed(cfg, z, w1, Page(w.mem, z.page, address / z.page), address, LeU32(c.address));
  }

  lemma RangeServed(cfg: Config, z: Sizes, w: World, buffer: seq<u8>, c: C.Command) returns (r: World)
    requires Acceptable(cfg, z, w, buffer, c)
    requires c.ReadRange?
    ensures Served(cfg, z, w, c, buffer, r)
    ensures Inv(cfg, z, Deliver(cfg, z, w, buffer, Perform(c)))
    ensures r == Settle(cfg, z, Deliver(cfg, z, w, buffer, Perform(c)))
  {
    hide Settle, Advance, Transmissions, RangeBuffers, LaidOver, Escape;
    var w0 := DeliverKeeps(cfg, z, w, buffer, c);
    RangeTransmits(cfg, z, w0);
    RangeRuns(cfg, z, w0);
    r := Settle(cfg, z, w0);
  }

  lemma CrcReplyIs(mem: seq<u8>, address: nat, n: nat)
    requires address + n <= |mem|
    ensures CrcReply(Crc.Complement(FoldOver(0xFFFF_FFFF, mem, address, n)))
      == CrcReply(Crc.Crc32(0, mem[address..address + n]))
  {
    Crc.FastIsCrc32(mem[address..address + n]);
  }

  lemma CrcServed(cfg: Config, z: Sizes, w: World, buffer: seq<u8>, c: C.Command) returns (r: World)
    requires Acceptable(cfg, z, w, buffer, c)
    requires c.CrcIntFlash?
    ensures Served(cfg, z, w, c, buffer, r)
    ensures Inv(cfg, z, Deliver(cfg, z, w, buffer, Perform(c)))
    ensures r == Settle(cfg, z, Deliver(cfg, z, w, buffer, Perform(c)))
  {
    hide Settle, Advance, CrcReply, FoldOver, Crc.Crc32, Crc.Complement, CrcRead;
    var w0 := DeliverKeeps(cfg, z, w, buffer, c);
    assert w0.m.state == Crc(c.address, c.crcLength, 0xFFFF_FFFF);
    CrcRuns(cfg, z, w0);
    CrcReplyIs(w.mem, c.address, c.crcLength);
    r := Settle(cfg, z, w0);
  }

  /** Every serviceable command, from every armed state and with any buffer contents: the receive is armed
      again after finitely many completions, the memory is what the interpreter says, and exactly the
      interpreter's reply was sent. */
  lemma CommandServed(cfg: Config, z: Sizes, w: World, buffer: seq<u8>, c: C.Command) returns (r: World)
    requires Acceptable(cfg, z, w, buffer, c)
    ensures Served(cfg, z, w, c, buffer, r)
    ensures Inv(cfg, z, Deliver(cfg, z, w, buffer, Perform(c)))
    ensures r == Settle(cfg, z, Deliver(cfg, z, w, buffer, Perform(c)))
  {
    hide Settle, Advance, Deliver, Served;
    match c
    case Info => r := InfoServed(cfg, z, w, buffer, c);
    case Reset => r := SilentServed(cfg, z, w, buffer, c);
    case Exit => r := SilentServed(cfg, z, w, buffer, c);
    case GetAttr(_) => r := GetServed(cfg, z, w, buffer, c);
    case SetAttr(_, _, _) => r := SetAttrServed(cfg, z, w, buffer, c);
    case SetStartAddress(_) => r := SetStartServed(cfg, z, w, buffer, c);
    case ReadRange(_, _) => r := RangeServed(cfg, z, w, buffer, c);
    case CrcIntFlash(_, _) => r := CrcServed(cfg, z, w, buffer, c);
    case ErasePage(_) => r := PageServed(cfg, z, w, buffer, c);
    case WritePage(address, data) =>
      if Writable(cfg, z, address, data) {
        r := PageServed(cfg, z, w, buffer, c);
      } else {
        r := AtOnceServed(cfg, z, w, buffer, c);
      }
    case _ => r := AtOnceServed(cfg, z, w, buffer, c);
  }

  /** A receive that ends in an error is answered with it, and one without a command is armed again in silence. */
  lemma RejectServed(cfg: Config, z: Sizes, w: World, buffer: seq<u8>, a: Action) returns (r: World)
    requires Inv(cfg, z, w) && Armed(w) && |buffer| == z.buffer && (a.Reject? || a.Nothing?)
    ensures Roomy(w.m, buffer, a) && Inv(cfg, z, Deliver(cfg, z, w, buffer, a))
    ensures r == Settle(cfg, z, Deliver(cfg, z, w, buffer, a))
    ensures r.mem == w.mem && r.m.exits == w.m.exits
    ensures var reply := if a.Nothing? then [] else R.Wire(RefusalOf(a.error));
      r.sent == w.sent + reply && r.m.line == Listening(Overwritten(buffer, reply))
  {
    hide Settle, Advance;
    var w0 := Deliver(cfg, z, w, buffer, a);
    if a.Reject? {
      OverwrittenFits(buffer, R.Wire(RefusalOf(a.error)));
      LastSend(cfg, z, w0);
      r := Settle(cfg, z, w0);
    } else {
      assert w.sent + [] == w.sent;
      ArmedSettles(cfg, z, w0);
      r := w0;
    }
  }

  lemma ArmedSettles(cfg: Config, z: Sizes, w: World)
    requires Inv(cfg, z, w) && Armed(w)
    ensures Settle(cfg, z, w) == w
  {
  }

  // ---- every reception ------------------------------------------------------------------------

  function RefusalOf(e: Error): R.Response {
    if e == BadArguments then R.BadArguments else R.InternalError
  }

  /** A reception that does not make the decoder panic; what a command in it touches lies in the flash. */
  predicate Manageable(cfg: Config, z: Sizes, size: nat, a: Action)
    requires z.page > 0
  {
    !a.Panics? && (a.Perform? ==> C.WellFormed(a.command) && Serviceable(cfg, z, size, a.command))
  }

  /** The memory, the reply and the command buffer after a reception that left `buffer`. */
  function MemOn(cfg: Config, z: Sizes, mem: seq<u8>, a: Action): (next: seq<u8>)
    requires ValidSizes(z, |mem|) && Manageable(cfg, z, |mem|, a)
    ensures |next| == |mem|
  {
    if a.Perform? then NextMem(cfg, z, mem, a.command) else mem
  }

  function ReplyOn(cfg: Config, z: Sizes, mem: seq<u8>, a: Action, buffer: seq<u8>): seq<u8>
    requires ValidSizes(z, |mem|) && Manageable(cfg, z, |mem|, a) && |buffer| == z.buffer
  {
    match a
    case Perform(c) => Reply(cfg, z, mem, c, buffer)
    case Reject(e) => R.Wire(RefusalOf(e))
    case _ => []
  }

  function BufferOn(cfg: Config, z: Sizes, mem: seq<u8>, a: Action, buffer: seq<u8>): (next: seq<u8>)
    requires ValidSizes(z, |mem|) && Manageable(cfg, z, |mem|, a) && |buffer| == z.buffer
    ensures |next| == |buffer|
  {
    if a.Perform? then NextBuffer(cfg, z, mem, a.command, buffer)
    else Overwritten(buffer, ReplyOn(cfg, z, mem, a, buffer))
  }

  /** What the interpreter says about a reception, of the world `r` a run from `w` ends in. */
  ghost predicate Answered(cfg: Config, z: Sizes, w: World, a: Action, buffer: seq<u8>, r: World)
    requires ValidSizes(z, |w.mem|) && Manageable(cfg, z, |w.mem|, a) && |buffer| == z.buffer
  {
    && r.mem == MemOn(cfg, z, w.mem, a)
    && r.sent == w.sent + ReplyOn(cfg, z, w.mem, a, buffer)
    && r.m.line == Listening(BufferOn(cfg, z, w.mem, a, buffer))
    && r.m.exits == w.m.exits + (if a.Perform? && a.command.Exit? then 1 else 0)
  }

  /** Whatever a receive brings, from every armed state: a serviceable command is served, an error answered. */
  lemma ReceptionServed(cfg: Config, z: Sizes, w: World, buffer: seq<u8>, a: Action) returns (r: World)
    requires Inv(cfg, z, w) && Armed(w) && |buffer| == z.buffer && Manageable(cfg, z, |w.mem|, a)
    ensures Roomy(w.m, buffer, a) && Inv(cfg, z, Deliver(cfg, z, w, buffer, a))
    ensures r == Settle(cfg, z, Deliver(cfg, z, w, buffer, a))
    ensures Answered(cfg, z, w, a, buffer, r)
  {
    hide Settle, Advance, Deliver, Reply, NextMem, NextBuffer, Overwritten;
    if a.Perform? {
      r := CommandServed(cfg, z, w, buffer, a.command);
    } else {
      r := RejectServed(cfg, z, w, buffer, a);
    }
  }

  /** What the loop performs was decoded, and so is well formed. */
  lemma {:induction false} PerformsWellFormed(d: D.Decoder, bytes: seq<u8>)
    ensures FirstAction(d, bytes).Perform? ==> C.WellFormed(FirstAction(d, bytes).command)
    decreases |bytes|
  {
    if bytes != [] {
      var (d1, outcome) := D.Step(d, bytes[0]);
      if outcome.Got? {
        T.DeliveredReencodes(bytes[0], d.loaded);
      }
      PerformsWellFormed(d1, bytes[1..]);
    }
  }

  // ---- from bytes to commands ------------------------------------------------------------------

  predicate Skippable(o: D.Outcome) {
    o.Quiet? || (o.Got? && o.command.Reset?)
  }

  /** The loop goes over everything that is not a command other than Reset. */
  lemma {:induction false} SkipsTo(d: D.Decoder, a: seq<u8>, b: seq<u8>)
    requires forall o :: o in T.Answers(d, a) ==> Skippable(o)
    ensures FirstAction(d, a + b) == FirstAction(T.After(d, a), b)
    decreases |a|
  {
    if a == [] {
      assert a + b == b;
    } else {
      assert (a + b)[0] == a[0] && (a + b)[1..] == a[1..] + b;
      var answers, later := T.Answers(d, a), T.Answers(D.Step(d, a[0]).0, a[1..]);
      assert answers[0] == D.Step(d, a[0]).1 && Skippable(answers[0]);
      assert answers[1..] == later;
      forall o | o in later ensures Skippable(o) {
        assert o in answers[1..];
      }
      assert FirstAction(d, a + b) == FirstAction(D.Step(d, a[0]).0, a[1..] + b);
      SkipsTo(D.Step(d, a[0]).0, a[1..], b);
    }
  }

  function Resets(n: nat): seq<u8> {
    if n == 0 then [] else C.Wire(C.Reset) + Resets(n - 1)
  }

  lemma {:induction false} ResetsSkipped(n: nat, b: seq<u8>)
    ensures FirstAction(D.START, Resets(n) + b) == FirstAction(D.START, b)
  {
    if n == 0 {
      assert Resets(0) + b == b;
    } else {
      T.FeedWire(C.Reset);
      SkipsTo(D.START, C.Wire(C.Reset), Resets(n - 1) + b);
      assert Resets(n) + b == C.Wire(C.Reset) + (Resets(n - 1) + b);
      ResetsSkipped(n - 1, b);
    }
  }

  lemma LastByteActs(d: D.Decoder, a: seq<u8>, rest: seq<u8>, c: C.Command)
    requires a != [] && !c.Reset?
    requires T.Answers(d, a) == T.Quiets(|a| - 1) + [D.Got(c)]
    ensures FirstAction(d, a + rest) == Perform(c)
  {
    var init, last := a[..|a| - 1], a[|a| - 1];
    assert a == init + [last];
    T.FeedConcat(d, init, [last]);
    var d1 := T.After(d, init);
    assert T.Answers(d, init) == T.Answers(d, a)[..|a| - 1];
    assert T.Answers(d1, [last])[0] == D.Step(d1, last).1;
    assert T.Answers(d, a)[|a| - 1] == D.Got(c);
    SkipsTo(d, init, [last] + rest);
    assert a + rest == init + ([last] + rest);
  }

  /** Resets, then the encoding of an accepted command, then anything: the command is performed. */
  lemma CommandArrives(resets: nat, c: C.Command, rest: seq<u8>)
    requires C.Accepted(c) && C.WellFormed(c) && !c.Reset?
    ensures FirstAction(D.START, Resets(resets) + C.Wire(c) + rest) == Perform(c)
  {
    T.PacketFits(c);
    T.FeedWire(c);
    LastByteActs(D.START, C.Wire(c), rest, c);
    ResetsSkipped(resets, C.Wire(c) + rest);
    Reassociate(Resets(resets), C.Wire(c), rest);
  }

  lemma TrailerFails(p: seq<u8>, code: u8, rest: seq<u8>, e: Error)
    requires code != ESCAPE_CHAR && D.Dispatch(code, p) == D.Failed(e)
    ensures FirstAction(D.Decoder(D.Loading, p), [ESCAPE_CHAR, code] + rest) == Reject(e)
  {
    hide D.Dispatch;
    var d, tail := D.Decoder(D.Loading, p), [ESCAPE_CHAR, code] + rest;
    assert tail[0] == ESCAPE_CHAR && tail[1..][0] == code;
    assert FirstAction(d, tail) == FirstAction(D.Step(d, ESCAPE_CHAR).0, tail[1..]);
  }

  /** A packet whose length does not fit its command byte is rejected, whatever follows it. */
  lemma BadPacketRejected(p: seq<u8>, code: u8, rest: seq<u8>)
    requires |p| <= 4224 && T.BadPacket(code, p)
    ensures FirstAction(D.START, CommandFrame(p, code) + rest) == Reject(BadArguments)
  {
    T.DispatchIs(code, p);
    assert code != ESCAPE_CHAR;
    hide D.Dispatch, FirstAction, Escape;
    T.FeedEscaped([], p);
    assert [] + p == p;
    SkipsTo(D.START, Escape(p), [ESCAPE_CHAR, code] + rest);
    assert CommandFrame(p, code) + rest == Escape(p) + ([ESCAPE_CHAR, code] + rest);
    TrailerFails(p, code, rest, BadArguments);
  }

  /** No reception is rejected for another reason. */
  lemma {:induction false} OnlyBadArguments(d: D.Decoder, bytes: seq<u8>)
    ensures FirstAction(d, bytes).Reject? ==> FirstAction(d, bytes) == Reject(BadArguments)
    decreases |bytes|
  {
    if bytes != [] {
      T.DispatchIs(bytes[0], d.loaded);
      hide D.Dispatch;
      OnlyBadArguments(D.Step(d, bytes[0]).0, bytes[1..]);
    }
  }
}
