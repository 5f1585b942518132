/** `Bootloader`: the callbacks themselves, over the buffers they pass to the UART and the flash. */
module Bootloader {
  import opened Bytes
  import opened Framing
  import opened BootloaderMachine
  import Crc
  import C = Commands
  import D = CommandDecoding
  import R = Responses
  import BootloaderCommands

  /** The UART: it owns a buffer from the call that hands it over until it calls back. */
  class UartPort {
    var buffer: array?<u8>
    var length: nat
    var sending: bool

    ghost function View(): Line
      reads this, buffer
    {
      if buffer == null then Silent else if sending then Sending(buffer[..], length) else Listening(buffer[..])
    }

    method TransmitBuffer(buffer: array<u8>, length: nat)
      requires this.buffer == null
      modifies this
      ensures this.buffer == buffer && this.length == length && sending
    {
      this.buffer, this.length, sending := buffer, length, true;
    }

    method ReceiveAutomatic(buffer: array<u8>)
      requires this.buffer == null
      modifies this
      ensures this.buffer == buffer && !sending
    {
      this.buffer, length, sending := buffer, buffer.Length, false;
    }
  }

  datatype Kind = Quiet | Read | Write | Erase

  /** The flash: it owns the page buffer while it reads or writes. */
  class FlashPort {
    var page: array?<u8>
    var index: nat
    var kind: Kind

    ghost predicate Valid()
      reads this
    {
      page != null <==> kind == Read || kind == Write
    }

    ghost function View(): FlashOp
      requires Valid()
      reads this, page
    {
      match kind
      case Quiet => NoOp
      case Read => Reading(index, page[..])
      case Write => Writing(index, page[..])
      case Erase => Erasing(index)
    }

    method ReadPage(index: nat, page: array<u8>)
      requires kind == Quiet
      modifies this
      ensures this.page == page && this.index == index && kind == Read
    {
      this.page, this.index, kind := page, index, Read;
    }

    method WritePage(index: nat, page: array<u8>)
      requires kind == Quiet
      modifies this
      ensures this.page == page && this.index == index && kind == Write
    {
      this.page, this.index, kind := page, index, Write;
    }

    method ErasePage(index: nat)
      requires kind == Quiet && page == null
      modifies this
      ensures this.page == null && this.index == index && kind == Erase
    {
      this.index, kind := index, Erase;
    }
  }

  /** Stores `data` at `at`. */
  method Put(target: array<u8>, at: nat, data: seq<u8>)
    requires at + |data| <= target.Length
    modifies target
    ensures target[..] == Splice(old(target[..]), at, data)
  {
    for i := 0 to |data|
      invariant forall k :: 0 <= k < target.Length ==>
        target[k] == if at <= k < at + i then data[k - at] else old(target[k])
    {
      target[at + i] := data[i];
    }
  }

  class Bootloader {
    const uart: UartPort
    const flash: FlashPort
    const cfg: Config
    var pageBuffer: array?<u8>
    var buffer: array?<u8>
    var state: State
    var exits: nat

    ghost predicate Valid()
      reads this, uart, flash
    {
      && flash.Valid()
      && (pageBuffer != null ==> flash.page == null && pageBuffer.Length > 0)
      && (buffer != null ==> uart.buffer == null)
      && (pageBuffer != null ==> pageBuffer != buffer && pageBuffer != uart.buffer)
      && (flash.page != null ==> flash.page != buffer && flash.page != uart.buffer)
    }

    ghost function View(): Machine
      requires Valid()
      reads this, uart, uart.buffer, flash, flash.page, pageBuffer, buffer
    {
      Machine(
        state,
        if buffer == null then None else Some(buffer[..]),
        if pageBuffer == null then None else Some(pageBuffer[..]),
        uart.View(), flash.View(), exits)
    }

    constructor (uart: UartPort, flash: FlashPort, cfg: Config, pageBuffer: array<u8>, buffer: array<u8>)
      requires uart.buffer == null && flash.kind == Quiet && flash.page == null
      requires pageBuffer != buffer && pageBuffer.Length > 0
      ensures Valid()
      ensures View() == Machine(Idle, Some(buffer[..]), Some(pageBuffer[..]), Silent, NoOp, 0)
      ensures this.uart == uart && this.flash == flash && this.cfg == cfg
    {
      this.uart, this.flash, this.cfg := uart, flash, cfg;
      this.pageBuffer, this.buffer := pageBuffer, buffer;
      state, exits := Idle, 0;
    }

    /** `start`, once the UART is configured. */
    method Start()
      requires Valid()
      modifies this, uart
      ensures Valid() && View() == ListenAgain(old(View()))
    {
      if buffer != null {
        var b := buffer;
        buffer := null;
        uart.ReceiveAutomatic(b);
      }
    }

    /** Two bytes are sent from a buffer the UART gave back. */
    method SendResponse(b: array<u8>, response: u8)
      requires Valid() && uart.buffer == null && buffer == null && b != pageBuffer && b != flash.page
      requires b.Length >= 2
      modifies uart, b
      ensures Valid() && View() == Transmit(old(View()), old(b[..]), [ESCAPE_CHAR, response])
    {
      b[0] := ESCAPE_CHAR;
      b[1] := response;
      assert b[..] == [ESCAPE_CHAR, response] + old(b[..])[2..];
      uart.TransmitBuffer(b, 2);
    }

    /** `self.page_buffer.take().map(|page| self.flash.read_page(address / page_len, page))` */
    method ReadPageOf(address: nat)
      requires Valid() && flash.kind == Quiet
      modifies this`pageBuffer, flash
      ensures Valid() && View() == StartRead(old(View()), address)
    {
      if pageBuffer != null {
        var page := pageBuffer;
        pageBuffer := null;
        flash.ReadPage(address / page.Length, page);
      }
    }

    // ---- `received_buffer` ----------------------------------------------------------

    /** The decoding loop, up to the byte that ends it. */
    method FirstCommand(b: array<u8>, rxLen: nat) returns (a: Action)
      requires rxLen <= b.Length
      ensures a == FirstAction(D.START, b[..rxLen])
    {
      var decoder := new D.CommandDecoder();
      var needReset := false;
      var i := 0;
      while i < rxLen
        invariant i <= rxLen && b[..] == old(b[..])
        invariant decoder.Valid() && fresh(decoder) && fresh(decoder.buffer)
        invariant needReset ==> decoder.View().loaded == []
        invariant FirstAction(D.START, b[..rxLen]) == FirstAction(decoder.View(), b[i..rxLen])
      {
        if needReset {
          decoder.Reset();
          needReset := false;
        }
        assert b[i..rxLen][0] == b[i] && b[i..rxLen][1..] == b[i + 1..rxLen];
        var outcome := decoder.Receive(b[i]);
        match outcome {
          case Quiet =>
          case Got(c) =>
            if c.Reset? {
              needReset := true;
            } else {
              return Perform(c);
            }
          case Failed(e) => return Reject(e);
          case Panicked => return Panics;
        }
        i := i + 1;
      }
      a := BootloaderMachine.Action.Nothing;
    }

    /** The attribute is laid out at the front of the command buffer. */
    method LayOutSlot(b: array<u8>, key: seq<u8>, value: seq<u8>)
      requires b.Length >= SLOT && |key| == 8 && |value| < 256
      modifies b
      ensures b[..] == AttributeSlot(key, value) + old(b[..])[SLOT..]
    {
      Put(b, 0, key);
      b[8] := |value| as u8;
      for i := 0 to 55
        invariant forall k :: 0 <= k < b.Length ==>
          b[k] == if k < 8 then key[k] else if k == 8 then |value|
            else if k < 9 + i then (if k - 9 < |value| then value[k - 9] else 0) else old(b[k])
      {
        b[9 + i] := if i < |value| then value[i] else 0;
      }
    }

    method StartWrite(b: array<u8>, address: u32, data: seq<u8>)
      requires Valid() && uart.buffer == null && buffer == null && b != pageBuffer && b != flash.page
      requires flash.kind == Quiet && pageBuffer != null && pageBuffer.Length == |data|
      modifies this, flash, pageBuffer
      ensures Valid()
      ensures View() == old(View()).(
        state := WriteFlashPage, buffer := Some(b[..]), page := None, op := Writing(address / |data|, data))
    {
      var page := pageBuffer;
      Put(page, 0, data);
      assert page[..] == data;
      pageBuffer := null;
      state := WriteFlashPage;
      buffer := b;
      flash.WritePage(address / page.Length, page);
    }

    method WritePageCommand(b: array<u8>, address: u32, data: seq<u8>)
      requires Valid() && uart.buffer == null && buffer == null && b != pageBuffer && b != flash.page
      requires flash.kind == Quiet && b.Length >= 2
      modifies this, uart, flash, b, pageBuffer
      ensures Valid()
      ensures View() == HandleCommand(cfg, old(View()), old(b[..]), C.WritePage(address, data))
    {
      if pageBuffer == null {
        return;
      }
      var page := pageBuffer;
      if page.Length != |data| {
        state := Idle;
        SendResponse(b, R.RES_BADARGS);
      } else if cfg.bootloaderAddress <= address < cfg.bootloaderEnd {
        state := Idle;
        SendResponse(b, R.RES_BADADDR);
      } else {
        StartWrite(b, address, data);
      }
    }

    method ListenWith(b: array<u8>)
      requires Valid() && uart.buffer == null && buffer == null && b != pageBuffer && b != flash.page
      modifies uart
      ensures Valid() && View() == Listen(old(View()), b[..])
    {
      uart.ReceiveAutomatic(b);
    }

    /** The command buffer is kept, and the page at `address` is read for the new state. */
    method KeepAndRead(b: array<u8>, next: State, address: nat)
      requires Valid() && uart.buffer == null && buffer == null && b != pageBuffer && b != flash.page
      requires flash.kind == Quiet
      modifies this, flash
      ensures Valid() && exits == old(exits)
      ensures View() == StartRead(old(View()).(state := next, buffer := Some(b[..])), address)
    {
      state := next;
      buffer := b;
      ReadPageOf(address);
    }

    /** The commands that start by reading a page. */
    method ExecuteOnPage(b: array<u8>, c: C.Command)
      requires Valid() && uart.buffer == null && buffer == null && b != pageBuffer && b != flash.page
      requires flash.kind == Quiet && b.Length >= RoomFor(c) && C.WellFormed(c)
      requires c.Info? || c.ReadRange? || c.CrcIntFlash? || c.GetAttr? || c.SetAttr? || c.SetStartAddress?
      modifies this, flash, b
      ensures Valid() && View() == HandleCommand(cfg, old(View()), old(b[..]), c)
    {
      hide AttributeSlot, StartRead, AttributeAddress;
      match c {
        case Info => KeepAndRead(b, Info, cfg.flagsAddress);
        case ReadRange(address, length) => KeepAndRead(b, ReadRange(address, length, length), address);
        case CrcIntFlash(address, length) => KeepAndRead(b, Crc(address, length, 0xFFFF_FFFF), address);
        case GetAttr(index) => KeepAndRead(b, GetAttribute(index), AttributeAddress(cfg, index));
        case SetAttr(index, key, value) =>
          LayOutSlot(b, key, value);
          KeepAndRead(b, SetAttribute(index), AttributeAddress(cfg, index));
        case SetStartAddress(address) => KeepAndRead(b, SetStartAddress(address), cfg.flagsAddress);
      }
    }

    method Execute(b: array<u8>, c: C.Command)
      requires Valid() && uart.buffer == null && buffer == null && b != pageBuffer && b != flash.page
      requires flash.kind == Quiet && b.Length >= RoomFor(c) && C.WellFormed(c)
      modifies this, uart, flash, b, pageBuffer
      ensures Valid()
      ensures View() == HandleCommand(cfg, old(View()), old(b[..]), c)
    {
      hide AttributeSlot, Transmit, StartRead, AttributeAddress, Listen, Protected;
      match c {
        case Ping => SendResponse(b, R.RES_PONG);
        case Reset => ListenWith(b);
        case WritePage(address, data) => WritePageCommand(b, address, data);
        case ErasePage(address) =>
          state := ErasePage;
          buffer := b;
          var pageSize := if pageBuffer != null then pageBuffer.Length else 512;
          flash.ErasePage(address / pageSize);
        case Exit =>
          exits := exits + 1;
          ListenWith(b);
        case Info => ExecuteOnPage(b, c);
        case ReadRange(_, _) => ExecuteOnPage(b, c);
        case CrcIntFlash(_, _) => ExecuteOnPage(b, c);
        case GetAttr(_) => ExecuteOnPage(b, c);
        case SetAttr(_, _, _) => ExecuteOnPage(b, c);
        case SetStartAddress(_) => ExecuteOnPage(b, c);
        case _ => SendResponse(b, R.RES_UNKNOWN);
      }
    }

    /** A receive that failed or brought nothing is armed again. A page write of fewer than four bytes makes the
        decoder index out of range: then nothing more is done. */
    method ReceivedBuffer(b: array<u8>, rxLen: nat, ok: bool) returns (panicked: bool)
      requires Valid() && uart.buffer == null && buffer == null && b != pageBuffer && b != flash.page
      requires flash.kind == Quiet && rxLen <= b.Length
      requires ok ==> Roomy(View(), b[..], FirstAction(D.START, b[..rxLen]))
      modifies this, uart, flash, b, pageBuffer
      ensures Valid()
      ensures panicked <==> ok && FirstAction(D.START, old(b[..rxLen])).Panics?
      ensures ok && !panicked ==>
        && (FirstAction(D.START, old(b[..rxLen])).Perform? ==>
              C.WellFormed(FirstAction(D.START, old(b[..rxLen])).command))
        && View() == Handle(cfg, old(View()), old(b[..]), FirstAction(D.START, old(b[..rxLen])))
      ensures !ok ==> View() == Listen(old(View()), old(b[..]))
      ensures panicked ==> View() == old(View())
    {
      panicked := false;
      if !ok || rxLen == 0 {
        assert ok ==> b[..rxLen] == [];
        uart.ReceiveAutomatic(b);
        return;
      }
      var a := FirstCommand(b, rxLen);
      BootloaderCommands.PerformsWellFormed(D.START, b[..rxLen]);
      match a {
        case Nothing => uart.ReceiveAutomatic(b);
        case Perform(c) => Execute(b, c);
        case Reject(e) => SendResponse(b, if e == BadArguments then R.RES_BADARGS else R.RES_INTERROR);
        case Panics => panicked := true;
      }
    }

    // ---- `transmitted_buffer` -------------------------------------------------------

    method TransmittedBuffer(b: array<u8>)
      requires Valid() && uart.buffer == null && buffer == null && b != pageBuffer && b != flash.page
      requires flash.kind == Quiet
      modifies this, uart, flash
      ensures Valid() && View() == Transmitted(old(View()), b[..])
    {
      match state {
        case ReadRange(address, _, remaining) =>
          if remaining == 0 {
            state := Idle;
            uart.ReceiveAutomatic(b);
          } else {
            buffer := b;
            ReadPageOf(address);
          }
        case _ =>
          uart.ReceiveAutomatic(b);
      }
    }

    // ---- `write_complete` and `erase_complete` -----------------------------------------

    method ConfirmOk()
      requires Valid() && (buffer != null ==> buffer.Length >= 2)
      modifies this, uart, buffer
      ensures Valid() && View() == Confirm(old(View()))
    {
      state := Idle;
      if buffer != null {
        var b := buffer;
        buffer := null;
        SendResponse(b, R.RES_OK);
      }
    }

    method WriteComplete(page: array<u8>)
      requires Valid() && flash.kind == Quiet && flash.page == null && page.Length > 0
      requires page != buffer && page != uart.buffer && (buffer != null ==> buffer.Length >= 2)
      modifies this, uart, buffer
      ensures Valid() && View() == BootloaderMachine.WriteComplete(old(View()), page[..])
    {
      pageBuffer := page;
      match state {
        case WriteFlashPage => ConfirmOk();
        case SetAttribute(_) => ConfirmOk();
        case SetStartAddress(_) => ConfirmOk();
        case _ => Start();
      }
    }

    method EraseComplete()
      requires Valid() && (buffer != null ==> buffer.Length >= 2)
      modifies this, uart, buffer
      ensures Valid() && View() == BootloaderMachine.EraseComplete(old(View()))
    {
      match state {
        case ErasePage => ConfirmOk();
        case _ => Start();
      }
    }

    // ---- `read_complete` ---------------------------------------------------------------

    static method PutEscaped(b: array<u8>, at: nat, v: u8) returns (next: nat)
      requires at + 1 < b.Length
      modifies b
      ensures next == at + |EscapeByte(v)| && b[..] == Splice(old(b[..]), at, EscapeByte(v))
    {
      next := at;
      if v == ESCAPE_CHAR {
        b[next] := ESCAPE_CHAR;
        next := next + 1;
      }
      b[next] := v;
      next := next + 1;
    }

    /** One round of the copy loop: byte `copied` of `src` goes in at `index`. */
    static method FillOne(
        b: array<u8>, start: nat, ghost src: seq<u8>, ghost orig: seq<u8>, copied: nat, index: nat, v: u8)
      returns (next: nat)
      requires copied < |src| && v == src[copied] && index < b.Length - 1
      requires Filled(b[..], orig, start, src, copied, index)
      modifies b
      ensures Filled(b[..], orig, start, src, copied + 1, next)
    {
      hide Escape, FillCount;
      FillMore(src, copied, index, b.Length, orig, start);
      next := PutEscaped(b, index, v);
    }

    /** The copy loop of a range: bytes and their escapes, while two are free. */
    static method FillRange(b: array<u8>, start: nat, page: array<u8>, at: nat, copyLen: nat, ghost src: seq<u8>)
      returns (copied: nat, index: nat)
      requires b != page && start <= b.Length && at + copyLen <= page.Length && src == page[at..at + copyLen]
      modifies b
      ensures copied == FillCount(src, start, b.Length)
      ensures Filled(b[..], old(b[..]), start, src, copied, index)
    {
      ghost var orig := b[..];
      index := start;
      copied := 0;
      FillStarts(orig, start, src);
      hide *;
      while copied < copyLen
        invariant copied <= copyLen && Filled(b[..], orig, start, src, copied, index)
      {
        if index >= b.Length - 1 {
          break;
        }
        index := FillOne(b, start, src, orig, copied, index, page[at + copied]);
        copied := copied + 1;
      }
      FillStops(b[..], orig, start, src, copied, index);
    }

    /** A buffer of a range reply is laid out at the front of the command buffer. */
    static method LayOutChunk(b: array<u8>, page: array<u8>, at: nat, remaining: nat, first: bool)
      returns (copied: nat, index: nat)
      requires b != page && b.Length >= 4 && at < page.Length
      modifies b
      ensures var chunk := RangeChunk(page[..], at, remaining, first, b.Length);
        && copied == chunk.copied && index == |chunk.out| <= b.Length
        && b[..] == chunk.out + old(b[..])[index..]
    {
      hide Escape, FillCount, RangeChunk, Splice;
      ghost var orig, header := b[..], RangeHeader(first);
      var start := 0;
      if first {
        b[0] := ESCAPE_CHAR;
        b[1] := R.RES_RRANGE;
        start := 2;
      }
      ghost var headed := b[..];
      assert headed == header + orig[start..];
      var len := Min(page.Length - at, remaining);
      var copyLen := Min(len, b.Length - start);
      ghost var src := Candidate(page[..], at, remaining, b.Length - start);
      assert page[at..at + copyLen] == src;
      copied, index := FillRange(b, start, page, at, copyLen, src);
      ChunkIs(page[..], at, remaining, first, b.Length, src, copied);
      hide Candidate;
      HeadThenEscaped(orig, header, Escape(src[..copied]), headed, b[..]);
    }

    method SendRange(page: array<u8>, address: u32, length: u16, remaining: u16)
      requires Valid() && flash.kind == Quiet && pageBuffer == null && page.Length > 0
      requires buffer != null && buffer.Length >= 4 && page != buffer
      modifies this, uart, buffer
      ensures Valid()
      ensures View() == RangeRead(old(View()), page[..], address % page.Length, address, length, remaining)
    {
      hide RangeChunk;
      var b := buffer;
      buffer := null;
      ChunkFits(page[..], address % page.Length, remaining, length == remaining, b.Length);
      var copied, index := LayOutChunk(b, page, address % page.Length, remaining, length == remaining);
      state := ReadRange(Wrap32(address + copied), length, remaining - copied);
      pageBuffer := page;
      uart.TransmitBuffer(b, index);
    }

    static method AddCrc(page: array<u8>, at: nat, len: nat, crc: bv32) returns (r: bv32)
      requires at + len <= page.Length
      ensures r == Crc.Fold(Crc.TableStep, crc, page[at..at + len])
    {
      hide Crc.TableStep;
      ghost var data := page[at..at + len];
      r := crc;
      for i := 0 to len
        invariant Crc.Fold(Crc.TableStep, crc, data) == Crc.Fold(Crc.TableStep, r, data[i..])
      {
        Crc.FoldNext(Crc.TableStep, r, data, i);
        r := Crc.TableStep(r, page[at + i]);
      }
    }

    static method AddPage(page: array<u8>, address: nat, remaining: nat, crc: bv32) returns (len: nat, r: bv32)
      requires page.Length > 0
      ensures len == Portion(page.Length, address, remaining) && r == PageCrc(crc, page[..], address, remaining)
    {
      hide Crc.TableStep, Crc.Fold;
      var at := address % page.Length;
      len := Min(page.Length - at, remaining);
      assert page[..][at..at + len] == page[at..at + len];
      r := AddCrc(page, at, len, crc);
    }

    method SendCrc(page: array<u8>, crc: bv32)
      requires Valid() && flash.kind == Quiet && pageBuffer == null && page.Length > 0
      requires buffer != null && buffer.Length >= 6 && page != buffer
      modifies this, uart, buffer
      ensures Valid()
      ensures View() == Transmit(Home(old(View()), page[..]).(state := Idle), old(buffer[..]), CrcReply(crc))
    {
      hide CrcReply;
      state := Idle;
      var b := buffer;
      buffer := null;
      Put(b, 0, CrcReply(crc));
      assert b[..] == CrcReply(crc) + old(buffer[..])[6..];
      pageBuffer := page;
      uart.TransmitBuffer(b, 6);
    }

    method ReadNext(page: array<u8>, address: nat)
      requires Valid() && flash.kind == Quiet && pageBuffer == null && page.Length > 0
      requires page != uart.buffer && page != buffer
      modifies flash
      ensures Valid() && View() == ReadOn(old(View()), page[..], address)
    {
      flash.ReadPage(address / page.Length, page);
    }

    method ContinueCrc(page: array<u8>, address: u32, remaining: u32, crc: bv32)
      requires Valid() && flash.kind == Quiet && pageBuffer == null && flash.page == null && page.Length > 0
      requires page != uart.buffer && page != buffer && (buffer != null ==> buffer.Length >= 6)
      modifies this, uart, flash, buffer
      ensures Valid() && View() == CrcRead(old(View()), page[..], address, remaining, crc)
    {
      hide PageCrc, Portion, CrcReply, Crc.Complement, Crc.TableStep, Crc.Fold, Wrap32, Transmit, ReadOn;
      var len, crc1 := AddPage(page, address, remaining, crc);
      if remaining == len {
        if buffer == null {
          state := Idle;
        } else {
          SendCrc(page, Crc.Complement(crc1));
        }
      } else {
        var next := Wrap32(address + len);
        state := Crc(next, remaining - len, crc1);
        ReadNext(page, next);
      }
    }

    /** The reply to GetAttr is laid out at the front of the command buffer. */
    static method LayOutAttribute(b: array<u8>, page: array<u8>, at: nat) returns (j: nat)
      requires b != page && b.Length >= 2 + 2 * SLOT && at + SLOT <= page.Length
      modifies b
      ensures var reply := ResponseFrame(R.RES_GATTR, page[at..at + SLOT]);
        j == |reply| && b[..] == reply + old(b[..])[j..]
    {
      hide Escape;
      ghost var orig, header := b[..], [ESCAPE_CHAR, R.RES_GATTR];
      b[0] := ESCAPE_CHAR;
      b[1] := R.RES_GATTR;
      j := 2;
      for i := 0 to 64
        invariant j == 2 + |Escape(page[at..at + i])| && j <= 2 + 2 * i
        invariant b[..] == header + Escape(page[at..at + i]) + orig[j..]
      {
        ghost var before, out := b[..], header + Escape(page[at..at + i]);
        j := PutEscaped(b, j, page[at + i]);
        assert page[at..at + i + 1] == page[at..at + i] + [page[at + i]];
        EscapeAppend(page[at..at + i], page[at + i]);
        NextEscaped(out, EscapeByte(page[at + i]), orig, before, b[..]);
        Reassociate(header, Escape(page[at..at + i]), EscapeByte(page[at + i]));
      }
    }

    method SendAttribute(page: array<u8>, at: nat)
      requires Valid() && pageBuffer == null && flash.page == null && page.Length > 0
      requires buffer != null && buffer.Length >= 2 + 2 * SLOT && page != buffer && page != uart.buffer
      requires at + SLOT <= page.Length
      modifies this, uart, buffer
      ensures Valid() && View() == AttributeRead(old(View()), page[..], at)
    {
      state := Idle;
      var b := buffer;
      buffer := null;
      assert page[..][at..at + SLOT] == page[at..at + SLOT];
      var j := LayOutAttribute(b, page, at);
      pageBuffer := page;
      uart.TransmitBuffer(b, j);
    }

    /** The page just read is changed in place and written back. */
    method WriteBackPage(page: array<u8>, address: nat, data: seq<u8>)
      requires Valid() && flash.kind == Quiet && page.Length > 0 && page != uart.buffer && page != buffer
      requires pageBuffer == null && flash.page == null && address % page.Length + |data| <= page.Length
      modifies flash, page
      ensures Valid() && View() == WriteBack(old(View()), old(page[..]), address, data)
    {
      hide Splice;
      Put(page, address % page.Length, data);
      flash.WritePage(address / page.Length, page);
    }

    // The information reply.

    static method PutText(b: array<u8>, at: nat, text: seq<u8>) returns (next: nat)
      requires at + |text| <= b.Length
      modifies b
      ensures next == at + |text| && b[..] == Splice(old(b[..]), at, text)
    {
      Put(b, at, text);
      next := at + |text|;
    }

    static method PutVersion(b: array<u8>, at: nat, page: array<u8>, field: nat) returns (next: nat)
      requires b != page && at + 8 <= b.Length && field + 8 <= page.Length
      modifies b
      ensures var version := Version(page[field..field + 8]);
        next == at + |version| && b[..] == Splice(old(b[..]), at, version)
    {
      next := at;
      var i := 0;
      hide *;
      while i < 8
        invariant i <= 8 && next == at + i
        invariant forall k :: field <= k < field + i ==> page[k] != 0
        invariant forall k :: 0 <= k < b.Length ==> b[k] == if at <= k < at + i then page[field + k - at] else old(b[k])
      {
        var v := page[i + field];
        if v == 0 {
          break;
        }
        b[next] := v;
        next := next + 1;
        i := i + 1;
      }
      VersionIs(page[field..field + 8], i);
    }

    static method PutHex(b: array<u8>, at: nat, page: array<u8>, word: nat) returns (next: nat)
      requires b != page && at + 8 <= b.Length && word + 4 <= page.Length
      modifies b
      ensures next == at + 8 && b[..] == Splice(old(b[..]), at, HexDigits(page[word..word + 4]))
    {
      next := at;
      ghost var orig, digits := b[..], HexDigits(page[word..word + 4]);
      for i := 0 to 8
        invariant next == at + i && b[..] == Splice(orig, at, digits[..i])
      {
        var v := page[word + 3 - i / 2];
        b[next] := HexDigit(if i % 2 == 0 then v / 16 else v % 16);
        assert b[next] == digits[i];
        next := next + 1;
      }
    }

    /** The text of the information reply is laid out from index 3. */
    static method LayOutText(b: array<u8>, page: array<u8>, flags: nat) returns (index: nat)
      requires b != page && b.Length >= INFO_LEN && flags + 36 <= page.Length
      modifies b
      ensures var json := InfoJson(page[flags..flags + 36]);
        index == 3 + |json| && b[..] == Splice(old(b[..]), 3, json)
    {
      hide Ascii, Version, HexDigits, JsonVersion, JsonStart, JsonComma, JsonName;
      ghost var orig, block := b[..], page[flags..flags + 36];
      ghost var v, h := Version(page[flags + 14..flags + 22]), HexDigits(page[flags + 32..flags + 36]);
      assert page[..][flags..flags + 36] == block;
      SliceOfSlice(page[..], flags, 36, 14, 8);
      SliceOfSlice(page[..], flags, 36, 32, 4);
      assert page[..][flags + 14..flags + 22] == page[flags + 14..flags + 22];
      assert page[..][flags + 32..flags + 36] == page[flags + 32..flags + 36];
      index := PutText(b, 3, JsonVersion());
      index := PutVersion(b, index, page, flags + 14);
      Spliced(orig, 3, JsonVersion(), v);
      index := PutText(b, index, JsonStart());
      Spliced(orig, 3, JsonVersion() + v, JsonStart());
      index := PutHex(b, index, page, flags + 32);
      Spliced(orig, 3, JsonVersion() + v + JsonStart(), h);
      index := PutText(b, index, JsonComma());
      Spliced(orig, 3, JsonVersion() + v + JsonStart() + h, JsonComma());
      index := PutText(b, index, JsonName());
      Spliced(orig, 3, JsonVersion() + v + JsonStart() + h + JsonComma(), JsonName());
    }

    /** The byte at the text's end is skipped: it keeps whatever the buffer held there. */
    static method LayOutInfo(b: array<u8>, page: array<u8>, flags: nat)
      requires b != page && b.Length >= INFO_LEN && flags + 36 <= page.Length
      modifies b
      ensures var block := page[flags..flags + 36];
        b[..] == InfoReply(block, old(b[3 + |InfoJson(block)|])) + old(b[..])[INFO_LEN..]
    {
      hide InfoJson;
      ghost var orig, json := b[..], InfoJson(page[flags..flags + 36]);
      b[0] := ESCAPE_CHAR;
      b[1] := R.RES_INFO;
      ghost var headed := b[..];
      var index := LayOutText(b, page, flags);
      b[2] := index - 3;
      index := index + 1;
      ghost var before := b[..];
      for i := index to INFO_LEN
        invariant b[..] == Splice(before, index, seq(i - index, _ => 0))
      {
        b[i] := 0;
      }
      InfoAssembled(orig, json, headed, before, b[..]);
    }

    method SendInfo(page: array<u8>)
      requires Valid() && flash.kind == Quiet && pageBuffer == null && page.Length > 0
      requires buffer != null && buffer.Length >= INFO_LEN && page != buffer
      requires cfg.flagsAddress % page.Length + 36 <= page.Length
      modifies this, uart, buffer
      ensures Valid() && View() == InfoRead(cfg, old(View()), page[..])
    {
      hide InfoJson, InfoReply;
      state := Idle;
      var b := buffer;
      buffer := null;
      var at := cfg.flagsAddress % page.Length;
      assert page[..][at..at + 36] == page[at..at + 36];
      LayOutInfo(b, page, at);
      pageBuffer := page;
      uart.TransmitBuffer(b, 195);
    }

    method ReadComplete(page: array<u8>)
      requires Valid() && flash.kind == Quiet && pageBuffer == null && flash.page == null
      requires page != buffer && page != uart.buffer && (buffer != null ==> buffer.Length >= NeededRoom(state))
      requires SlotInPage(cfg, View(), page[..])
      modifies this, uart, flash, buffer, page
      ensures Valid() && View() == BootloaderMachine.ReadComplete(cfg, old(View()), old(page[..]))
    {
      hide InfoRead, AttributeRead, WriteBack, RangeRead, CrcRead;
      match state {
        case Info =>
          if buffer == null { state := Idle; } else { SendInfo(page); }
        case GetAttribute(index) =>
          if buffer == null { state := Idle; }
          else { SendAttribute(page, AttributeAddress(cfg, index) % page.Length); }
        case SetAttribute(index) =>
          if buffer != null {
            WriteBackPage(page, AttributeAddress(cfg, index), buffer[..SLOT]);
          }
        case SetStartAddress(start) =>
          WriteBackPage(page, cfg.flagsAddress + 32, LeU32(start));
        case ReadRange(address, length, remaining) =>
          if buffer != null { SendRange(page, address, length, remaining); }
        case Crc(address, remaining, crc) =>
          ContinueCrc(page, address, remaining, crc);
        case _ =>
      }
    }
  }

  /** The version string is the field up to its first zero. */
  lemma {:induction false} VersionIs(field: seq<u8>, n: nat)
    requires n <= |field| && (n == |field| || field[n] == 0)
    requires forall k :: 0 <= k < n ==> field[k] != 0
    ensures Version(field) == field[..n]
    decreases n
  {
    if n > 0 {
      VersionIs(field[1..], n - 1);
      assert field[..n] == [field[0]] + field[1..][..n - 1];
    }
  }

  lemma HeadThenEscaped(orig: seq<u8>, header: seq<u8>, body: seq<u8>, headed: seq<u8>, after: seq<u8>)
    requires |header| + |body| <= |orig| && headed == header + orig[|header|..]
    requires after == Splice(headed, |header|, body)
    ensures after == (header + body) + orig[|header + body|..]
  {
  }

  lemma NextEscaped(out: seq<u8>, more: seq<u8>, orig: seq<u8>, before: seq<u8>, after: seq<u8>)
    requires |out| + |more| <= |orig| && before == out + orig[|out|..]
    requires after == Splice(before, |out|, more)
    ensures after == (out + more) + orig[|out| + |more|..]
  {
  }

  lemma Spliced(orig: seq<u8>, at: nat, a: seq<u8>, b: seq<u8>)
    requires at + |a| + |b| <= |orig|
    ensures Splice(Splice(orig, at, a), at + |a|, b) == Splice(orig, at, a + b)
  {
  }

  lemma InfoAssembled(orig: seq<u8>, json: seq<u8>, headed: seq<u8>, before: seq<u8>, after: seq<u8>)
    requires |orig| >= INFO_LEN && |json| <= 78
    requires headed == [ESCAPE_CHAR, R.RES_INFO] + orig[2..]
    requires before == Splice(headed, 3, json)[2 := |json| as u8]
    requires after == Splice(before, 4 + |json|, seq(INFO_LEN - 4 - |json|, _ => 0))
    ensures after == [ESCAPE_CHAR, R.RES_INFO, |json| as u8] + json + [orig[3 + |json|]]
      + seq(INFO_LEN - 4 - |json|, _ => 0) + orig[INFO_LEN..]
  {
  }
}
