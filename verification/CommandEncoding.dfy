/** `CommandEncoder`: hands out the bytes of a command one at a time. */
module CommandEncoding {
  import opened Bytes
  import opened Framing
  import opened Commands

  /** What rendering position `count` of a command must yield: payload bytes with escapes, then the trailer. */
  function RenderAt(payload: seq<u8>, code: u8, count: nat, sentEscape: bool): Rendered {
    if count < |payload| then Render(sentEscape, payload[count])
    else if count == |payload| then Rendered(1, Some(ESCAPE_CHAR), sentEscape)
    else if count == |payload| + 1 then Rendered(1, Some(code), sentEscape)
    else Rendered(0, None, sentEscape)
  }

  ghost predicate Consistent(payload: seq<u8>, count: nat, sentEscape: bool) {
    && count <= |payload| + 2
    && (sentEscape ==> count < |payload| && payload[count] == ESCAPE_CHAR)
  }

  ghost function StillToCome(payload: seq<u8>, code: u8, count: nat, sentEscape: bool): seq<u8>
    requires Consistent(payload, count, sentEscape)
  {
    if count <= |payload| then Pending(payload, count, sentEscape) + [ESCAPE_CHAR, code]
    else if count == |payload| + 1 then [code]
    else []
  }

  lemma PayloadTakesOne(payload: seq<u8>, code: u8, count: nat, sentEscape: bool)
    requires Consistent(payload, count, sentEscape) && count < |payload|
    ensures var r := Render(sentEscape, payload[count]);
      && Consistent(payload, count + r.increment, r.sentEscape) && r.out.Some?
      && StillToCome(payload, code, count, sentEscape)
         == [r.out.value] + StillToCome(payload, code, count + r.increment, r.sentEscape)
  {
    RenderPending(payload, count, sentEscape);
  }

  lemma TrailerTakesOne(payload: seq<u8>, code: u8, count: nat)
    requires |payload| <= count < |payload| + 2
    ensures StillToCome(payload, code, count, false)
      == [if count == |payload| then ESCAPE_CHAR else code] + StillToCome(payload, code, count + 1, false)
  {
    if count == |payload| {
      assert payload[count..] == [] && Pending(payload, count, false) == [];
    }
  }

  /** Rendering position `count` takes exactly the first byte off what is still to come. */
  lemma RenderTakesOne(payload: seq<u8>, code: u8, count: nat, sentEscape: bool)
    requires Consistent(payload, count, sentEscape)
    ensures var r := RenderAt(payload, code, count, sentEscape);
      && Consistent(payload, count + r.increment, r.sentEscape)
      && (r.out.None? <==> StillToCome(payload, code, count, sentEscape) == [])
      && StillToCome(payload, code, count, sentEscape)
         == AsSeq(r.out) + StillToCome(payload, code, count + r.increment, r.sentEscape)
  {
    if count < |payload| {
      PayloadTakesOne(payload, code, count, sentEscape);
    } else if count < |payload| + 2 {
      TrailerTakesOne(payload, code, count);
    }
  }

  lemma OneMore(all: seq<u8>, i: nat, b: u8, rest: seq<u8>, rest': seq<u8>)
    requires i <= |all| && all[..i] + rest == all && rest == [b] + rest'
    ensures i < |all| && all[i] == b && all[..i + 1] + rest' == all
  {
    assert all[i] == rest[0];
  }

  lemma FillOne(all: seq<u8>, tail: seq<u8>, i: nat)
    requires i < |all| && i < |tail|
    ensures (all[..i] + tail[i..])[i := all[i]] == all[..i + 1] + tail[i + 1..]
  {
  }

  class CommandEncoder {
    const command: Command
    var count: nat
    var sentEscape: bool

    ghost predicate Valid()
      reads this
    {
      Accepted(command) && Consistent(Payload(command), count, sentEscape)
    }

    /** The bytes `Next` has yet to hand out. */
    ghost function Remaining(): seq<u8>
      requires Valid()
      reads this
    {
      StillToCome(Payload(command), Code(command), count, sentEscape)
    }

    constructor (command: Command)
      requires Accepted(command)
      ensures Valid() && this.command == command && Remaining() == Wire(command)
    {
      this.command := command;
      count := 0;
      sentEscape := false;
      new;
      assert Payload(command)[0..] == Payload(command);
    }

    /** `CommandEncoder::new` checks the lengths it was given. */
    static method New(command: Command) returns (r: Option<CommandEncoder>)
      ensures r.Some? <==> Accepted(command)
      ensures r.Some? ==>
        fresh(r.value) && r.value.Valid() && r.value.command == command && r.value.Remaining() == Wire(command)
    {
      r := None;
      match command {
        case WritePage(_, data) =>
          if |data| != INT_PAGE_SIZE { return; }
        case WriteExPage(_, data) =>
          if |data| != EXT_PAGE_SIZE { return; }
        case SetAttr(index, key, value) =>
          if index > MAX_INDEX { return; }
          if |key| != KEY_LEN { return; }
          if |value| > MAX_ATTR_LEN { return; }
        case _ =>
      }
      var e := new CommandEncoder(command);
      r := Some(e);
    }

    method Reset()
      requires Accepted(command)
      modifies this
      ensures Valid() && Remaining() == Wire(command)
    {
      count := 0;
      sentEscape := false;
      assert Payload(command)[0..] == Payload(command);
    }

    method RenderByte(b: u8) returns (increment: nat, out: Option<u8>)
      modifies `sentEscape
      ensures Rendered(increment, out, sentEscape) == Render(old(sentEscape), b)
    {
      if b == ESCAPE_CHAR {
        if sentEscape {
          sentEscape := false;
          return 1, Some(ESCAPE_CHAR);
        } else {
          sentEscape := true;
          return 0, Some(ESCAPE_CHAR);
        }
      } else {
        sentEscape := false;
        return 1, Some(b);
      }
    }

    method RenderU16(idx: nat, value: u16) returns (increment: nat, out: Option<u8>)
      modifies `sentEscape
      ensures Rendered(increment, out, sentEscape) ==
        if idx < 2 then Render(old(sentEscape), LeU16(value)[idx]) else Rendered(0, None, old(sentEscape))
    {
      match idx {
        case 0 => increment, out := RenderByte(value % 256);
        case 1 => increment, out := RenderByte(value / 256);
        case _ => increment, out := 0, None;
      }
    }

    method RenderU32(idx: nat, value: u32) returns (increment: nat, out: Option<u8>)
      modifies `sentEscape
      ensures Rendered(increment, out, sentEscape) ==
        if idx < 4 then Render(old(sentEscape), LeU32(value)[idx]) else Rendered(0, None, old(sentEscape))
    {
      match idx {
        case 0 => increment, out := RenderByte(value % 256);
        case 1 => increment, out := RenderByte(value / 256 % 256);
        case 2 => increment, out := RenderByte(value / 65536 % 256);
        case 3 => increment, out := RenderByte(value / 16777216);
        case _ => increment, out := 0, None;
      }
    }

    method RenderBuffer(idx: nat, pageSize: nat, data: seq<u8>) returns (increment: nat, out: Option<u8>)
      modifies `sentEscape
      ensures Rendered(increment, out, sentEscape) ==
        if idx < pageSize then Render(old(sentEscape), if idx < |data| then data[idx] else 0)
        else Rendered(0, None, old(sentEscape))
    {
      if idx < |data| && idx < pageSize {
        increment, out := RenderByte(data[idx]);
      } else if idx < pageSize {
        increment, out := RenderByte(0x00);
      } else {
        increment, out := 0, None;
      }
    }

    method RenderBasicCmd(count: nat, cmd: u8) returns (increment: nat, out: Option<u8>)
      ensures Rendered(increment, out, sentEscape) == RenderAt([], cmd, count, sentEscape)
    {
      match count {
        case 0 => increment, out := 1, Some(ESCAPE_CHAR);
        case 1 => increment, out := 1, Some(cmd);
        case _ => increment, out := 0, None;
      }
    }

    method RenderErasePage(address: u32) returns (increment: nat, out: Option<u8>)
      modifies `sentEscape
      ensures Rendered(increment, out, sentEscape) == RenderAt(LeU32(address), CMD_EPAGE, count, old(sentEscape))
    {
      if count <= 3 {
        increment, out := RenderU32(count, address);
      } else {
        increment, out := RenderBasicCmd(count - 4, CMD_EPAGE);
      }
    }

    method RenderWritePage(address: u32, data: seq<u8>) returns (increment: nat, out: Option<u8>)
      requires |data| == INT_PAGE_SIZE
      modifies `sentEscape
      ensures Rendered(increment, out, sentEscape) == RenderAt(LeU32(address) + data, CMD_WPAGE, count, old(sentEscape))
    {
      if count <= 3 {
        increment, out := RenderU32(count, address);
      } else if count <= 515 {
        increment, out := RenderBuffer(count - 4, INT_PAGE_SIZE, data);
      } else {
        increment, out := RenderBasicCmd(count - 516, CMD_WPAGE);
      }
    }

    method RenderEraseExBlock(address: u32) returns (increment: nat, out: Option<u8>)
      modifies `sentEscape
      ensures Rendered(increment, out, sentEscape) == RenderAt(LeU32(address), CMD_XEBLOCK, count, old(sentEscape))
    {
      if count <= 3 {
        increment, out := RenderU32(count, address);
      } else {
        increment, out := RenderBasicCmd(count - 4, CMD_XEBLOCK);
      }
    }

    method RenderWriteExPage(address: u32, data: seq<u8>) returns (increment: nat, out: Option<u8>)
      requires |data| == EXT_PAGE_SIZE
      modifies `sentEscape
      ensures Rendered(increment, out, sentEscape)
        == RenderAt(LeU32(address) + data, CMD_XWPAGE, count, old(sentEscape))
    {
      if count <= 3 {
        increment, out := RenderU32(count, address);
      } else if count <= 259 {
        increment, out := RenderBuffer(count - 4, EXT_PAGE_SIZE, data);
      } else {
        increment, out := RenderBasicCmd(count - 260, CMD_XWPAGE);
      }
    }

    method RenderReadRange(address: u32, length: u16) returns (increment: nat, out: Option<u8>)
      modifies `sentEscape
      ensures Rendered(increment, out, sentEscape)
        == RenderAt(LeU32(address) + LeU16(length), CMD_RRANGE, count, old(sentEscape))
    {
      if count <= 3 {
        increment, out := RenderU32(count, address);
      } else if count <= 5 {
        increment, out := RenderU16(count - 4, length);
      } else {
        increment, out := RenderBasicCmd(count - 6, CMD_RRANGE);
      }
    }

    method RenderExReadRange(address: u32, length: u16) returns (increment: nat, out: Option<u8>)
      modifies `sentEscape
      ensures Rendered(increment, out, sentEscape)
        == RenderAt(LeU32(address) + LeU16(length), CMD_XRRANGE, count, old(sentEscape))
    {
      if count <= 3 {
        increment, out := RenderU32(count, address);
      } else if count <= 5 {
        increment, out := RenderU16(count - 4, length);
      } else {
        increment, out := RenderBasicCmd(count - 6, CMD_XRRANGE);
      }
    }

    method RenderSetAttr(index: u8, key: seq<u8>, value: seq<u8>) returns (increment: nat, out: Option<u8>)
      requires |key| == KEY_LEN && |value| <= MAX_ATTR_LEN
      modifies `sentEscape
      ensures Rendered(increment, out, sentEscape)
        == RenderAt([index] + key + [|value| as u8] + value, CMD_SATTR, count, old(sentEscape))
    {
      var maxLen := if |value| > MAX_ATTR_LEN then MAX_ATTR_LEN else |value|;
      if count == 0 {
        increment, out := RenderByte(index);
      } else if count <= 8 {
        increment, out := RenderBuffer(count - 1, KEY_LEN, key);
      } else if count == 9 {
        increment, out := RenderByte(maxLen as u8);
      } else if maxLen > 0 && count < maxLen + 10 {
        increment, out := RenderBuffer(count - 10, maxLen, value);
      } else {
        increment, out := RenderBasicCmd(count - (10 + maxLen), CMD_SATTR);
      }
    }

    method RenderGetAttr(index: u8) returns (increment: nat, out: Option<u8>)
      modifies `sentEscape
      ensures Rendered(increment, out, sentEscape) == RenderAt([index], CMD_GATTR, count, old(sentEscape))
    {
      if count == 0 {
        increment, out := RenderByte(index);
      } else {
        increment, out := RenderBasicCmd(count - 1, CMD_GATTR);
      }
    }

    method RenderSetStartAddress(address: u32) returns (increment: nat, out: Option<u8>)
      modifies `sentEscape
      ensures Rendered(increment, out, sentEscape) == RenderAt(LeU32(address), CMD_SSTARTADDR, count, old(sentEscape))
    {
      if count <= 3 {
        increment, out := RenderU32(count, address);
      } else {
        increment, out := RenderBasicCmd(count - 4, CMD_SSTARTADDR);
      }
    }

    method RenderCrcIntFlash(first: u32, second: u32) returns (increment: nat, out: Option<u8>)
      modifies `sentEscape
      ensures Rendered(increment, out, sentEscape)
        == RenderAt(LeU32(first) + LeU32(second), CMD_CRCIF, count, old(sentEscape))
    {
      if count <= 3 {
        increment, out := RenderU32(count, first);
      } else if count <= 7 {
        increment, out := RenderU32(count - 4, second);
      } else {
        increment, out := RenderBasicCmd(count - 8, CMD_CRCIF);
      }
    }

    method RenderCrcExtFlash(first: u32, second: u32) returns (increment: nat, out: Option<u8>)
      modifies `sentEscape
      ensures Rendered(increment, out, sentEscape)
        == RenderAt(LeU32(first) + LeU32(second), CMD_CRCEF, count, old(sentEscape))
    {
      if count <= 3 {
        increment, out := RenderU32(count, first);
      } else if count <= 7 {
        increment, out := RenderU32(count - 4, second);
      } else {
        increment, out := RenderBasicCmd(count - 8, CMD_CRCEF);
      }
    }

    method RenderEraseExPage(address: u32) returns (increment: nat, out: Option<u8>)
      modifies `sentEscape
      ensures Rendered(increment, out, sentEscape) == RenderAt(LeU32(address), CMD_XEPAGE, count, old(sentEscape))
    {
      if count <= 3 {
        increment, out := RenderU32(count, address);
      } else {
        increment, out := RenderBasicCmd(count - 4, CMD_XEPAGE);
      }
    }

    method RenderWriteFlashUserPages(first: u32, second: u32) returns (increment: nat, out: Option<u8>)
      modifies `sentEscape
      ensures Rendered(increment, out, sentEscape)
        == RenderAt(LeU32(first) + LeU32(second), CMD_WUSER, count, old(sentEscape))
    {
      if count <= 3 {
        increment, out := RenderU32(count, first);
      } else if count <= 7 {
        increment, out := RenderU32(count - 4, second);
      } else {
        increment, out := RenderBasicCmd(count - 8, CMD_WUSER);
      }
    }

    method RenderChangeBaud(mode: BaudMode, baud: u32) returns (increment: nat, out: Option<u8>)
      modifies `sentEscape
      ensures Rendered(increment, out, sentEscape)
        == RenderAt([ModeByte(mode)] + LeU32(baud), CMD_CHANGE_BAUD, count, old(sentEscape))
    {
      if count == 0 {
        increment, out := RenderByte(match mode case Set => 0x01 case Verify => 0x02);
      } else if count <= 4 {
        increment, out := RenderU32(count - 1, baud);
      } else {
        increment, out := RenderBasicCmd(count - 5, CMD_CHANGE_BAUD);
      }
    }

    /** The `match` of `next`: the bytes come out as `RenderAt` prescribes. */
    method RenderCommand() returns (increment: nat, out: Option<u8>)
      requires Accepted(command)
      modifies `sentEscape
      ensures Rendered(increment, out, sentEscape)
        == RenderAt(Payload(command), Code(command), count, old(sentEscape))
    {
      match command {
        case Ping => increment, out := RenderBasicCmd(count, CMD_PING);
        case Info => increment, out := RenderBasicCmd(count, CMD_INFO);
        case Id => increment, out := RenderBasicCmd(count, CMD_ID);
        case Reset => increment, out := RenderBasicCmd(count, CMD_RESET);
        case ErasePage(address) => increment, out := RenderErasePage(address);
        case WritePage(address, data) => increment, out := RenderWritePage(address, data);
        case EraseExBlock(address) => increment, out := RenderEraseExBlock(address);
        case WriteExPage(address, data) => increment, out := RenderWriteExPage(address, data);
        case CrcRxBuffer => increment, out := RenderBasicCmd(count, CMD_CRCRX);
        case ReadRange(address, length) => increment, out := RenderReadRange(address, length);
        case ExReadRange(address, length) => increment, out := RenderExReadRange(address, length);
        case SetAttr(index, key, value) => increment, out := RenderSetAttr(index, key, value);
        case GetAttr(index) => increment, out := RenderGetAttr(index);
        case CrcIntFlash(address, length) => increment, out := RenderCrcIntFlash(address, length);
        case CrcExtFlash(address, length) => increment, out := RenderCrcExtFlash(address, length);
        case EraseExPage(address) => increment, out := RenderEraseExPage(address);
        case ExtFlashInit => increment, out := RenderBasicCmd(count, CMD_XFINIT);
        case ClockOut => increment, out := RenderBasicCmd(count, CMD_CLKOUT);
        case WriteFlashUserPages(page1, page2) => increment, out := RenderWriteFlashUserPages(page1, page2);
        case ChangeBaud(mode, baud) => increment, out := RenderChangeBaud(mode, baud);
        case SetStartAddress(address) => increment, out := RenderSetStartAddress(address);
        case Exit => increment, out := RenderBasicCmd(count, CMD_EXIT);
      }
    }

    /** Hands out the next byte; once all are out it answers `None` for ever. */
    method Next() returns (out: Option<u8>)
      requires Valid()
      modifies this
      ensures Valid()
      ensures out.None? <==> old(Remaining()) == []
      ensures old(Remaining()) == AsSeq(out) + Remaining()
    {
      RenderTakesOne(Payload(command), Code(command), count, sentEscape);
      var increment: nat;
      increment, out := RenderCommand();
      count := count + increment;
    }

    /** `Encoder::write`: fills `buffer` from the front and answers how many bytes it used. */
    method Write(buffer: array<u8>) returns (used: nat)
      requires Valid()
      modifies this, buffer
      ensures Valid()
      ensures used == Min(buffer.Length, |old(Remaining())|)
      ensures buffer[..used] + Remaining() == old(Remaining())
      ensures buffer[used..] == old(buffer[used..])
    {
      ghost var all, rest := Remaining(), Remaining();
      ghost var tail := buffer[..];
      var i := 0;
      while i < buffer.Length
        invariant Valid() && Remaining() == rest
        invariant i <= buffer.Length && i <= |all|
        invariant |tail| == buffer.Length && buffer[..] == all[..i] + tail[i..]
        invariant all[..i] + rest == all
      {
        var ch := Next();
        if ch.None? {
          return i;
        }
        OneMore(all, i, ch.value, rest, Remaining());
        rest := Remaining();
        FillOne(all, tail, i);
        buffer[i] := ch.value;
        i := i + 1;
      }
      return buffer.Length;
    }
  }
}
