/** Whole runs of the bootloader over a flat flash: ownership, progress and what each command does. */
module BootloaderRuns {
  import opened Arithmetic
  import opened Bytes
  import opened Framing
  import opened BootloaderMachine
  import Crc
  import Commands
  import CommandDecoding

  /** The bootloader, the flash contents and everything sent so far. */
  datatype World = World(m: Machine, mem: seq<u8>, sent: seq<u8>)

  /** Page size and command buffer size. */
  datatype Sizes = Sizes(page: nat, buffer: nat)

  /** A flash of whole pages of any size, and a command buffer that holds a header and an escaped byte. */
  predicate ValidSizes(z: Sizes, size: nat) {
    z.page > 0 && z.buffer >= 4 && size % z.page == 0 && size <= 0x1_0000_0000
  }

  /** So many bytes at an address lie in the flash, in one page. */
  predicate InOnePage(z: Sizes, size: nat, address: nat, n: nat)
    requires z.page > 0
  {
    address + n <= size && address % z.page + n <= z.page
  }

  // ---- pages of a flat memory ----------------------------------------------------

  function PageStart(pageSize: nat, index: nat): nat {
    index * pageSize
  }

  predicate IsPage(pageSize: nat, size: nat, index: nat) {
    PageStart(pageSize, index) + pageSize <= size
  }

  function Page(mem: seq<u8>, pageSize: nat, index: nat): (p: seq<u8>)
    requires IsPage(pageSize, |mem|, index)
    ensures |p| == pageSize
  {
    mem[PageStart(pageSize, index)..PageStart(pageSize, index) + pageSize]
  }

  /** An address lies in the page its quotient names, at its remainder. */
  lemma InItsPage(pageSize: nat, size: nat, address: nat)
    requires pageSize > 0 && size % pageSize == 0 && address < size
    ensures PageStart(pageSize, address / pageSize) + address % pageSize == address
    ensures address % pageSize < pageSize
    ensures IsPage(pageSize, size, address / pageSize)
  {
    var index, pages := address / pageSize, size / pageSize;
    assert size == pages * pageSize;
    assert index * pageSize + address % pageSize == address;
    if pages <= index {
      TimesMonotone(pageSize, pages, index);
      assert false;
    }
    TimesMonotone(pageSize, index + 1, pages);
    assert (index + 1) * pageSize == index * pageSize + pageSize;
  }

  /** What a page holds at an offset is what the memory holds at the address. */
  lemma PageSlice(mem: seq<u8>, pageSize: nat, address: nat, n: nat)
    requires pageSize > 0 && |mem| % pageSize == 0 && address < |mem|
    requires address % pageSize + n <= pageSize
    ensures IsPage(pageSize, |mem|, address / pageSize)
    ensures address + n <= |mem|
    ensures Page(mem, pageSize, address / pageSize)[address % pageSize..address % pageSize + n]
      == mem[address..address + n]
  {
    InItsPage(pageSize, |mem|, address);
    var start := PageStart(pageSize, address / pageSize);
    assert start + address % pageSize == address && start + pageSize <= |mem|;
    SliceOfSlice(mem, PageStart(pageSize, address / pageSize), pageSize, address % pageSize, n);
  }

  /** Reading a page, replacing part of it and writing it back replaces that part of the memory. */
  lemma PageSplice(mem: seq<u8>, pageSize: nat, address: nat, data: seq<u8>)
    requires pageSize > 0 && |mem| % pageSize == 0 && address < |mem|
    requires address % pageSize + |data| <= pageSize
    ensures IsPage(pageSize, |mem|, address / pageSize)
    ensures address + |data| <= |mem|
    ensures Splice(mem, PageStart(pageSize, address / pageSize),
        Splice(Page(mem, pageSize, address / pageSize), address % pageSize, data))
      == Splice(mem, address, data)
  {
    InItsPage(pageSize, |mem|, address);
    SpliceOfSplice(mem, PageStart(pageSize, address / pageSize), pageSize, address % pageSize, data);
  }

  // ---- one completion ----------------------------------------------------------------

  /** What the current state asks of the flash lies within it, and its answer within the command buffer. */
  predicate StateFits(cfg: Config, z: Sizes, size: nat, state: State, index: nat)
    requires z.page > 0
  {
    && NeededRoom(state) <= z.buffer
    && match state
       case Info => InOnePage(z, size, cfg.flagsAddress, 36) && index == cfg.flagsAddress / z.page
       case GetAttribute(i) =>
         InOnePage(z, size, AttributeAddress(cfg, i), SLOT) && index == AttributeAddress(cfg, i) / z.page
       case SetAttribute(i) =>
         InOnePage(z, size, AttributeAddress(cfg, i), SLOT) && index == AttributeAddress(cfg, i) / z.page
       case SetStartAddress(_) => InOnePage(z, size, cfg.flagsAddress, 36) && index == cfg.flagsAddress / z.page
       case ReadRange(address, length, remaining) =>
         address < size && address + remaining <= size && remaining <= length && index == address / z.page
       case Crc(address, remaining, _) =>
         address < size && address + remaining <= size && index == address / z.page
       case _ => false
  }

  predicate Writes(state: State) {
    state.WriteFlashPage? || state.SetAttribute? || state.SetStartAddress?
  }

  /** Between callbacks: the command buffer is in its cell or with the UART, the page buffer is in its cell
      or with the flash, exactly one operation is outstanding, and the receive is armed only when idle. */
  predicate Consistent(cfg: Config, z: Sizes, size: nat, m: Machine)
    requires z.page > 0
  {
    match m.line
    case Listening(buffer) =>
      |buffer| == z.buffer && m.state.Idle? && m.buffer.None? && m.op.NoOp?
      && m.page.Some? && |m.page.value| == z.page
    case Sending(out, length) =>
      && |out| == z.buffer && length <= z.buffer && m.buffer.None? && m.op.NoOp?
      && m.page.Some? && |m.page.value| == z.page
      && (m.state.Idle? ||
          (m.state.ReadRange? && (m.state.remaining > 0 ==>
             m.state.remaining < m.state.length && m.state.address < size
             && m.state.address + m.state.remaining <= size)))
    case Silent =>
      && m.buffer.Some? && |m.buffer.value| == z.buffer
      && match m.op
         case NoOp => false
         case Reading(index, page) =>
           m.page.None? && |page| == z.page && StateFits(cfg, z, size, m.state, index)
         case Writing(index, page) =>
           m.page.None? && |page| == z.page && Writes(m.state) && IsPage(z.page, size, index)
         case Erasing(index) =>
           m.page.Some? && |m.page.value| == z.page && m.state.ErasePage? && IsPage(z.page, size, index)
  }

  predicate Inv(cfg: Config, z: Sizes, w: World) {
    ValidSizes(z, |w.mem|) && Consistent(cfg, z, |w.mem|, w.m)
  }

  predicate Armed(w: World) {
    w.m.line.Listening?
  }

  /** Completions still to come before the receive is armed again. */
  function Measure(w: World): nat {
    match w.m.line
    case Listening(_) => 0
    case Sending(_, _) => if w.m.state.ReadRange? then 2 * w.m.state.remaining + 1 else 1
    case Silent =>
      match w.m.op
      case NoOp => 0
      case Reading(_, _) =>
        (match w.m.state
         case ReadRange(_, _, remaining) => if remaining == 0 then 2 else 2 * remaining
         case Crc(_, remaining, _) => 2 + remaining
         case _ => 3)
      case Writing(_, _) => 2
      case Erasing(_) => 2
  }

  /** The outstanding operation completes and the bootloader is called back. */
  function Advance(cfg: Config, z: Sizes, w: World): World
    requires Inv(cfg, z, w) && !Armed(w)
  {
    match w.m.line
    case Sending(out, length) =>
      World(Transmitted(w.m.(line := Silent), out), w.mem, w.sent + out[..length])
    case Silent =>
      match w.m.op
      case Reading(index, _) =>
        ReadingFits(cfg, z, |w.mem|, w.m);
        World(ReadComplete(cfg, w.m.(op := NoOp), Page(w.mem, z.page, index)), w.mem, w.sent)
      case Writing(index, page) =>
        World(WriteComplete(w.m.(op := NoOp), page), Splice(w.mem, PageStart(z.page, index), page), w.sent)
      case Erasing(index) =>
        World(EraseComplete(w.m.(op := NoOp)),
          Splice(w.mem, PageStart(z.page, index), seq(z.page, _ => 0xFF)), w.sent)
  }

  lemma ReadingFits(cfg: Config, z: Sizes, size: nat, m: Machine)
    requires ValidSizes(z, size) && Consistent(cfg, z, size, m)
    requires m.line.Silent? && m.op.Reading?
    ensures IsPage(z.page, size, m.op.index) && HasRoom(m, NeededRoom(m.state))
    ensures forall page: seq<u8> :: |page| == z.page ==> SlotInPage(cfg, m, page)
  {
    match m.state
    case Info => InItsPage(z.page, size, cfg.flagsAddress);
    case GetAttribute(i) => InItsPage(z.page, size, AttributeAddress(cfg, i));
    case SetAttribute(i) => InItsPage(z.page, size, AttributeAddress(cfg, i));
    case SetStartAddress(_) => InItsPage(z.page, size, cfg.flagsAddress); SameFlagsPage(cfg, z, size);
    case ReadRange(address, _, _) => InItsPage(z.page, size, address);
    case Crc(address, _, _) => InItsPage(z.page, size, address);
  }

  /** The start address lies in the page the flags start in. */
  lemma SameFlagsPage(cfg: Config, z: Sizes, size: nat)
    requires z.page > 0 && InOnePage(z, size, cfg.flagsAddress, 36)
    ensures (cfg.flagsAddress + 32) / z.page == cfg.flagsAddress / z.page
    ensures (cfg.flagsAddress + 32) % z.page == cfg.flagsAddress % z.page + 32
  {
    var q, r := cfg.flagsAddress / z.page, cfg.flagsAddress % z.page;
    assert cfg.flagsAddress + 32 == q * z.page + (r + 32);
    DivisionIs(cfg.flagsAddress + 32, z.page, q, r + 32);
  }

  // ---- every completion keeps the invariant and makes progress --------------------------

  lemma SentKeeps(cfg: Config, z: Sizes, w: World)
    requires Inv(cfg, z, w) && w.m.line.Sending?
    ensures Inv(cfg, z, Advance(cfg, z, w))
    ensures Measure(Advance(cfg, z, w)) < Measure(w)
  {
  }

  lemma WrittenKeeps(cfg: Config, z: Sizes, w: World)
    requires Inv(cfg, z, w) && w.m.line.Silent? && !w.m.op.Reading?
    ensures Inv(cfg, z, Advance(cfg, z, w))
    ensures Measure(Advance(cfg, z, w)) < Measure(w)
  {
  }

  /** A read completes with the page it asked for. */
  lemma AdvanceReading(cfg: Config, z: Sizes, w: World)
    requires Inv(cfg, z, w) && w.m.line.Silent? && w.m.op.Reading?
    ensures IsPage(z.page, |w.mem|, w.m.op.index)
    ensures var m, page := w.m.(op := NoOp), Page(w.mem, z.page, w.m.op.index);
      && SlotInPage(cfg, m, page) && HasRoom(m, NeededRoom(m.state))
      && Advance(cfg, z, w) == World(ReadComplete(cfg, m, page), w.mem, w.sent)
  {
    ReadingFits(cfg, z, |w.mem|, w.m);
  }

  /** One buffer of a range: some bytes of the memory at the current address, with the header if it is the
      first, and at least one byte while there is one to send. */
  lemma ChunkOfMemory(mem: seq<u8>, pageSize: nat, address: nat, remaining: nat, first: bool, size: nat)
    returns (chunk: Chunk)
    requires pageSize > 0 && |mem| % pageSize == 0 && address < |mem| && size >= 4
    ensures IsPage(pageSize, |mem|, address / pageSize) && address % pageSize < pageSize
    ensures chunk == RangeChunk(Page(mem, pageSize, address / pageSize), address % pageSize, remaining, first, size)
    ensures chunk.copied <= remaining && (remaining > 0 ==> chunk.copied >= 1) && |chunk.out| <= size
    ensures address + chunk.copied <= |mem|
    ensures chunk.out == RangeHeader(first) + Escape(mem[address..address + chunk.copied])
  {
    InItsPage(pageSize, |mem|, address);
    var page, at := Page(mem, pageSize, address / pageSize), address % pageSize;
    ChunkFits(page, at, remaining, first, size);
    chunk := RangeChunk(page, at, remaining, first, size);
    PageSlice(mem, pageSize, address, chunk.copied);
  }

  /** The buffers of a whole range reply, for pages of any size and any transmit buffer of at least four bytes. */
  function RangeBuffers(
      mem: seq<u8>, pageSize: nat, address: nat, remaining: nat, first: bool, size: nat): (buffers: seq<seq<u8>>)
    requires pageSize > 0 && |mem| % pageSize == 0 && size >= 4
    requires address < |mem| && address + remaining <= |mem|
    decreases remaining
  {
    InItsPage(pageSize, |mem|, address);
    var page, at := Page(mem, pageSize, address / pageSize), address % pageSize;
    ChunkFits(page, at, remaining, first, size);
    var chunk := RangeChunk(page, at, remaining, first, size);
    if chunk.copied == remaining then [chunk.out]
    else [chunk.out] + RangeBuffers(mem, pageSize, address + chunk.copied, remaining - chunk.copied, false, size)
  }

  /** The first of them, and the others. */
  lemma RangeBuffersNext(mem: seq<u8>, pageSize: nat, address: nat, remaining: nat, first: bool, size: nat)
    returns (chunk: Chunk)
    requires pageSize > 0 && |mem| % pageSize == 0 && size >= 4
    requires address < |mem| && address + remaining <= |mem|
    ensures IsPage(pageSize, |mem|, address / pageSize) && address % pageSize < pageSize
    ensures chunk == RangeChunk(Page(mem, pageSize, address / pageSize), address % pageSize, remaining, first, size)
    ensures chunk.copied <= remaining && (remaining > 0 ==> chunk.copied >= 1) && |chunk.out| <= size
    ensures chunk.out == RangeHeader(first) + Escape(mem[address..address + chunk.copied])
    ensures chunk.copied < remaining ==> address + chunk.copied < |mem|
    ensures RangeBuffers(mem, pageSize, address, remaining, first, size)
      == if chunk.copied == remaining then [chunk.out]
         else [chunk.out] + RangeBuffers(mem, pageSize, address + chunk.copied, remaining - chunk.copied, false, size)
  {
    hide RangeChunk, Escape, Page;
    chunk := ChunkOfMemory(mem, pageSize, address, remaining, first, size);
  }

  lemma FlattenFirst(a: seq<u8>, rest: seq<seq<u8>>)
    ensures Flatten([a] + rest) == a + Flatten(rest)
  {
    assert ([a] + rest)[1..] == rest;
  }

  lemma EscapedJoin(header: seq<u8>, mem: seq<u8>, address: nat, n: nat, remaining: nat)
    requires n <= remaining && address + remaining <= |mem|
    ensures header + Escape(mem[address..address + n]) + ([] + Escape(mem[address + n..address + remaining]))
      == header + Escape(mem[address..address + remaining])
  {
    hide Escape;
    assert mem[address..address + remaining] == mem[address..address + n] + mem[address + n..address + remaining];
    EscapeConcat(mem[address..address + n], mem[address + n..address + remaining]);
  }

  /** Together they are one header and the escaped bytes of exactly the range: none lost, none repeated. */
  lemma {:induction false} RangeBuffersJoin(
      mem: seq<u8>, pageSize: nat, address: nat, remaining: nat, first: bool, size: nat)
    requires pageSize > 0 && |mem| % pageSize == 0 && size >= 4
    requires address < |mem| && address + remaining <= |mem|
    ensures Flatten(RangeBuffers(mem, pageSize, address, remaining, first, size))
      == RangeHeader(first) + Escape(mem[address..address + remaining])
    ensures forall b :: b in RangeBuffers(mem, pageSize, address, remaining, first, size) ==> |b| <= size
    decreases remaining
  {
    hide RangeBuffers, RangeChunk, Page, Escape, Flatten;
    var chunk := RangeBuffersNext(mem, pageSize, address, remaining, first, size);
    var n, out := chunk.copied, chunk.out;
    if n == remaining {
      FlattenFirst(out, []);
      assert [out] + [] == [out] && out + Flatten([]) == out by { FlattenNone(); }
    } else {
      RangeBuffersJoin(mem, pageSize, address + n, remaining - n, false, size);
      FlattenFirst(out, RangeBuffers(mem, pageSize, address + n, remaining - n, false, size));
      EscapedJoin(RangeHeader(first), mem, address, n, remaining);
    }
  }

  lemma FlattenNone()
    ensures Flatten([]) == []
  {
  }

  /** The next buffer of a range goes to the UART, and the state moves on by what it carries. */
  lemma RangeStep(cfg: Config, z: Sizes, w: World) returns (chunk: Chunk, page: seq<u8>)
    requires Inv(cfg, z, w) && w.m.line.Silent? && w.m.op.Reading? && w.m.state.ReadRange?
    ensures chunk.copied <= w.m.state.remaining && |chunk.out| <= z.buffer && |page| == z.page
    ensures w.m.state.remaining > 0 ==> chunk.copied >= 1
    ensures w.m.state.address + w.m.state.remaining <= |w.mem| && w.m.state.address < |w.mem|
    ensures chunk.copied < w.m.state.remaining ==> w.m.state.address + chunk.copied < |w.mem|
    ensures RangeBuffers(w.mem, z.page, w.m.state.address, w.m.state.remaining,
        w.m.state.length == w.m.state.remaining, z.buffer)
      == if chunk.copied == w.m.state.remaining then [chunk.out]
         else [chunk.out] + RangeBuffers(w.mem, z.page, w.m.state.address + chunk.copied,
           w.m.state.remaining - chunk.copied, false, z.buffer)
    ensures Advance(cfg, z, w)
      == World(SendChunk(w.m.(op := NoOp), page, chunk, w.m.state.address, w.m.state.length, w.m.state.remaining),
               w.mem, w.sent)
  {
    hide RangeBuffers;
    AdvanceReading(cfg, z, w);
    page := Page(w.mem, z.page, w.m.op.index);
    chunk := RangeBuffersNext(w.mem, z.page, w.m.state.address, w.m.state.remaining,
      w.m.state.length == w.m.state.remaining, z.buffer);
  }

  lemma RangeKeeps(cfg: Config, z: Sizes, w: World)
    requires Inv(cfg, z, w) && w.m.line.Silent? && w.m.op.Reading? && w.m.state.ReadRange?
    ensures Inv(cfg, z, Advance(cfg, z, w))
    ensures Measure(Advance(cfg, z, w)) < Measure(w)
  {
    hide RangeBuffers, Advance;
    var chunk, page := RangeStep(cfg, z, w);
  }

  lemma CrcKeeps(cfg: Config, z: Sizes, w: World)
    requires Inv(cfg, z, w) && w.m.line.Silent? && w.m.op.Reading? && w.m.state.Crc?
    ensures Inv(cfg, z, Advance(cfg, z, w))
    ensures Measure(Advance(cfg, z, w)) < Measure(w)
  {
    var address, remaining := w.m.state.crcAddress, w.m.state.crcRemaining;
    PageSlice(w.mem, z.page, address, Portion(z.page, address, remaining));
  }

  lemma SetAttributeKeeps(cfg: Config, z: Sizes, w: World)
    requires Inv(cfg, z, w) && w.m.line.Silent? && w.m.op.Reading? && w.m.state.SetAttribute?
    ensures Inv(cfg, z, Advance(cfg, z, w))
    ensures Measure(Advance(cfg, z, w)) < Measure(w)
  {
    hide Advance, Splice;
    AdvanceReading(cfg, z, w);
  }

  lemma SetStartKeeps(cfg: Config, z: Sizes, w: World)
    requires Inv(cfg, z, w) && w.m.line.Silent? && w.m.op.Reading? && w.m.state.SetStartAddress?
    ensures Inv(cfg, z, Advance(cfg, z, w))
    ensures Measure(Advance(cfg, z, w)) < Measure(w)
  {
    hide Advance, Splice;
    AdvanceReading(cfg, z, w);
    SameFlagsPage(cfg, z, |w.mem|);
  }

  lemma InfoKeeps(cfg: Config, z: Sizes, w: World)
    requires Inv(cfg, z, w) && w.m.line.Silent? && w.m.op.Reading? && w.m.state.Info?
    ensures Inv(cfg, z, Advance(cfg, z, w))
    ensures Measure(Advance(cfg, z, w)) < Measure(w)
  {
    AdvanceReading(cfg, z, w);
  }

  lemma AttributeKeeps(cfg: Config, z: Sizes, w: World)
    requires Inv(cfg, z, w) && w.m.line.Silent? && w.m.op.Reading? && w.m.state.GetAttribute?
    ensures Inv(cfg, z, Advance(cfg, z, w))
    ensures Measure(Advance(cfg, z, w)) < Measure(w)
  {
    AdvanceReading(cfg, z, w);
  }

  /** Every completion, in every reachable state, keeps the ownership invariant and brings the armed
      receive nearer. */
  lemma AdvanceKeeps(cfg: Config, z: Sizes, w: World)
    requires Inv(cfg, z, w) && !Armed(w)
    ensures Inv(cfg, z, Advance(cfg, z, w))
    ensures Measure(Advance(cfg, z, w)) < Measure(w)
  {
    if w.m.line.Sending? {
      SentKeeps(cfg, z, w);
    } else if !w.m.op.Reading? {
      WrittenKeeps(cfg, z, w);
    } else {
      match w.m.state
      case ReadRange(_, _, _) => RangeKeeps(cfg, z, w);
      case Crc(_, _, _) => CrcKeeps(cfg, z, w);
      case SetAttribute(_) => SetAttributeKeeps(cfg, z, w);
      case SetStartAddress(_) => SetStartKeeps(cfg, z, w);
      case Info => InfoKeeps(cfg, z, w);
      case _ => AttributeKeeps(cfg, z, w);
    }
  }

  /** Completions until the receive is armed again: finitely many, from every reachable state. */
  function Settle(cfg: Config, z: Sizes, w: World): (r: World)
    requires Inv(cfg, z, w)
    ensures Inv(cfg, z, r) && Armed(r) && |r.mem| == |w.mem|
    decreases Measure(w)
  {
    if Armed(w) then w
    else
      AdvanceKeeps(cfg, z, w);
      Settle(cfg, z, Advance(cfg, z, w))
  }

  /** The buffers sent until the receive is armed again. */
  function Transmissions(cfg: Config, z: Sizes, w: World): seq<seq<u8>>
    requires Inv(cfg, z, w)
    decreases Measure(w)
  {
    if Armed(w) then []
    else
      AdvanceKeeps(cfg, z, w);
      var rest := Transmissions(cfg, z, Advance(cfg, z, w));
      if w.m.line.Sending? then [w.m.line.out[..w.m.line.length]] + rest else rest
  }

  lemma AdvanceSends(cfg: Config, z: Sizes, w: World)
    requires Inv(cfg, z, w) && !Armed(w)
    ensures Advance(cfg, z, w).sent
      == w.sent + (if w.m.line.Sending? then w.m.line.out[..w.m.line.length] else [])
  {
    hide Transmitted, ReadComplete, WriteComplete, EraseComplete, Splice;
    assert w.sent + [] == w.sent;
  }

  /** What is sent is those buffers, in order. */
  lemma {:induction false} SentIsTransmissions(cfg: Config, z: Sizes, w: World)
    requires Inv(cfg, z, w)
    ensures Settle(cfg, z, w).sent == w.sent + Flatten(Transmissions(cfg, z, w))
    decreases Measure(w)
  {
    hide Advance, Flatten;
    if Armed(w) {
      FlattenNone();
      assert w.sent + [] == w.sent;
    } else {
      AdvanceKeeps(cfg, z, w);
      var w1 := Advance(cfg, z, w);
      SentIsTransmissions(cfg, z, w1);
      AdvanceSends(cfg, z, w);
      if w.m.line.Sending? {
        var out := w.m.line.out[..w.m.line.length];
        FlattenFirst(out, Transmissions(cfg, z, w1));
        Reassociate(w.sent, out, Flatten(Transmissions(cfg, z, w1)));
      } else {
        assert w.sent + [] == w.sent;
      }
    }
  }
}
