/** `CommandDecoder`: a state machine fed one byte at a time. */
module CommandDecoding {
  import opened Bytes
  import opened Framing
  import opened Commands

  const BUFFER_LEN := 4224

  datatype DecoderState = Loading | Escaped

  /** `loaded` is `buffer[..count]`. */
  datatype Decoder = Decoder(state: DecoderState, loaded: seq<u8>)

  /** What `receive` answers: `Ok(None)`, `Ok(Some(command))`, `Err(error)`, or an index out of range. */
  datatype Outcome = Quiet | Got(command: Command) | Failed(error: Error) | Panicked

  predicate ValidDecoder(d: Decoder) {
    |d.loaded| <= BUFFER_LEN
  }

  const START := Decoder(Loading, [])

  /** The `match ch` of `handle_escape`, for a byte other than the escape. */
  function Dispatch(code: u8, p: seq<u8>): Outcome {
    match code
    case 0x01 => Got(Ping)
    case 0x03 => Got(Info)
    case 0x04 => Got(Id)
    case 0x05 => Got(Reset)
    case 0x06 => if |p| == 4 then Got(ErasePage(ReadU32(p[0..4]))) else Failed(BadArguments)
    case 0x07 => if |p| >= 4 then Got(WritePage(ReadU32(p[0..4]), p[4..])) else Panicked
    case 0x08 => if |p| == 4 then Got(EraseExBlock(ReadU32(p[0..4]))) else Failed(BadArguments)
    case 0x09 =>
      if |p| == EXT_PAGE_SIZE + 4 then Got(WriteExPage(ReadU32(p[0..4]), p[4..])) else Failed(BadArguments)
    case 0x10 => Got(CrcRxBuffer)
    case 0x11 => if |p| == 6 then Got(ReadRange(ReadU32(p[0..4]), ReadU16(p[4..6]))) else Failed(BadArguments)
    case 0x12 => if |p| == 6 then Got(ExReadRange(ReadU32(p[0..4]), ReadU16(p[4..6]))) else Failed(BadArguments)
    case 0x13 =>
      if |p| >= 10 && |p| == 10 + (p[9] as int) then Got(SetAttr(p[0], p[1..9], p[10..])) else Failed(BadArguments)
    case 0x14 => if |p| == 1 then Got(GetAttr(p[0])) else Failed(BadArguments)
    case 0x15 => if |p| == 8 then Got(CrcIntFlash(ReadU32(p[0..4]), ReadU32(p[4..8]))) else Failed(BadArguments)
    case 0x16 => if |p| == 8 then Got(CrcExtFlash(ReadU32(p[0..4]), ReadU32(p[4..8]))) else Failed(BadArguments)
    case 0x17 => if |p| == 4 then Got(EraseExPage(ReadU32(p[0..4]))) else Failed(BadArguments)
    case 0x18 => Got(ExtFlashInit)
    case 0x19 => Got(ClockOut)
    case 0x20 =>
      if |p| == 8 then Got(WriteFlashUserPages(ReadU32(p[0..4]), ReadU32(p[4..8]))) else Failed(BadArguments)
    case 0x21 =>
      if |p| == 5 && p[0] == 0x01 then Got(ChangeBaud(Set, ReadU32(p[1..5])))
      else if |p| == 5 && p[0] == 0x02 then Got(ChangeBaud(Verify, ReadU32(p[1..5])))
      else Failed(BadArguments)
    case 0x22 => Got(Exit)
    case 0x23 => if |p| == 4 then Got(SetStartAddress(ReadU32(p[0..4]))) else Failed(BadArguments)
    case _ => Quiet
  }

  function Load(loaded: seq<u8>, ch: u8): seq<u8> {
    if |loaded| < BUFFER_LEN then loaded + [ch] else loaded
  }

  /** One call of `receive`. A command or an error empties the buffer. */
  function Step(d: Decoder, ch: u8): (Decoder, Outcome) {
    if d.state == Loading then
      if ch == ESCAPE_CHAR then (Decoder(Escaped, d.loaded), Quiet)
      else (Decoder(Loading, Load(d.loaded, ch)), Quiet)
    else if ch == ESCAPE_CHAR then (Decoder(Loading, Load(d.loaded, ch)), Quiet)
    else
      var outcome := Dispatch(ch, d.loaded);
      (Decoder(Loading, if outcome.Got? || outcome.Failed? then [] else d.loaded), outcome)
  }

  class CommandDecoder {
    var state: DecoderState
    const buffer: array<u8>
    var count: nat

    ghost predicate Valid()
      reads this
    {
      buffer.Length == BUFFER_LEN && count <= BUFFER_LEN
    }

    function View(): Decoder
      requires Valid()
      reads this, buffer
    {
      Decoder(state, buffer[..count])
    }

    constructor ()
      ensures Valid() && fresh(buffer) && View() == START
    {
      state := Loading;
      buffer := new u8[BUFFER_LEN](_ => 0);
      count := 0;
    }

    /** `reset` empties the buffer; it does not leave the `Escaped` state. */
    method Reset()
      requires Valid()
      modifies this
      ensures Valid() && View() == Decoder(old(state), [])
    {
      count := 0;
    }

    method LoadChar(ch: u8)
      requires Valid()
      modifies this`count, buffer
      ensures Valid() && View() == Decoder(state, Load(old(View()).loaded, ch))
    {
      if count < buffer.Length {
        buffer[count] := ch;
        count := count + 1;
      }
    }

    method HandleLoading(ch: u8) returns (outcome: Outcome)
      requires Valid() && state == Loading
      modifies this, buffer
      ensures Valid() && (View(), outcome) == Step(old(View()), ch)
    {
      if ch == ESCAPE_CHAR {
        state := Escaped;
      } else {
        LoadChar(ch);
      }
      outcome := Quiet;
    }

    method HandleEscape(ch: u8) returns (outcome: Outcome)
      requires Valid() && state == Escaped
      modifies this, buffer
      ensures Valid() && (View(), outcome) == Step(old(View()), ch)
    {
      state := Loading;
      if ch == ESCAPE_CHAR {
        LoadChar(ch);
        return Quiet;
      }
      outcome := Dispatch(ch, buffer[..count]);
      if outcome.Got? {
        count := 0;
      } else if outcome.Failed? {
        count := 0;
      }
    }

    /** Afterwards nothing of the packet is left if it was a command or an error. */
    method Receive(ch: u8) returns (outcome: Outcome)
      requires Valid()
      modifies this, buffer
      ensures Valid() && (View(), outcome) == Step(old(View()), ch)
    {
      match state {
        case Loading => outcome := HandleLoading(ch);
        case Escaped => outcome := HandleEscape(ch);
      }
    }
  }
}
