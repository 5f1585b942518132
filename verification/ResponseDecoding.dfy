/** `ResponseDecoder`: a state machine fed one byte at a time, told the length of unbounded responses. */
module ResponseDecoding {
  import opened Bytes
  import opened Framing
  import opened Responses

  const BUFFER_LEN := 4224

  datatype DecoderState = Loading | Escaped

  datatype Decoder = Decoder(state: DecoderState, buffer: seq<u8>, count: nat, needed: Option<nat>)

  /** What `receive` answers: `Ok(None)`, `Ok(Some(response))` or `Err(error)`. */
  datatype Answer = Quiet | Got(response: Response) | Failed(error: Error)

  predicate ValidDecoder(d: Decoder) {
    |d.buffer| == BUFFER_LEN && d.count <= BUFFER_LEN && d.needed != Some(0)
  }

  /** The `match self.buffer[0]` of `load_char`, with the response byte at the front of the buffer. */
  function Interpret(buffer: seq<u8>, count: nat): Answer
    requires |buffer| == BUFFER_LEN && 1 <= count <= BUFFER_LEN
  {
    match buffer[0]
    case 0x19 => Got(CrcRxBuffer(ReadU16(buffer[1..3]), ReadU32(buffer[3..7])))
    case 0x20 => Got(ReadRange(buffer[1..count]))
    case 0x21 => Got(ExReadRange(buffer[1..count]))
    case 0x22 =>
      var length := buffer[9] as nat;
      if 9 + length <= count then Got(GetAttr(buffer[1..9], buffer[10..10 + length])) else Failed(Error.BadArguments)
    case 0x23 => Got(CrcIntFlash(ReadU32(buffer[1..5])))
    case 0x24 => Got(CrcExtFlash(ReadU32(buffer[1..5])))
    case 0x25 =>
      var length := buffer[1] as nat;
      if length + 1 < count then Got(Info(buffer[2..length + 2])) else Failed(Error.BadArguments)
    case _ => Failed(UnknownCommand)
  }

  /** `set_payload_len`: refused while a length is set. */
  function SetPayloadLen(d: Decoder, length: nat): (Decoder, bool) {
    if d.needed.Some? then (d, false) else (d.(needed := Some(length + 1)), true)
  }

  function LoadChar(d: Decoder, ch: u8): (Decoder, Answer)
    requires ValidDecoder(d)
  {
    var d1 := if d.count < BUFFER_LEN then d.(buffer := d.buffer[d.count := ch], count := d.count + 1) else d;
    if d1.needed == Some(d1.count) then (d1.(needed := None, count := 0), Interpret(d1.buffer, d1.count))
    else (d1, Quiet)
  }

  /** `self.load_char(ch)?; Ok(None)`: an error is passed on, a response is dropped. */
  function LoadHeader(d: Decoder, ch: u8): (Decoder, Answer)
    requires ValidDecoder(d)
  {
    var (d1, a) := LoadChar(d, ch);
    (d1, if a.Failed? then a else Quiet)
  }

  function Bounded(d: Decoder, length: nat, ch: u8): (Decoder, Answer)
    requires ValidDecoder(d)
  {
    var (d1, ok) := SetPayloadLen(d, length);
    if ok then LoadHeader(d1, ch) else (d, Failed(SetLength))
  }

  function Unbounded(d: Decoder, ch: u8): (Decoder, Answer)
    requires ValidDecoder(d)
  {
    if d.needed.None? then (d, Failed(UnsetLength)) else LoadHeader(d, ch)
  }

  function Simple(d: Decoder, r: Response): (Decoder, Answer) {
    (d.(count := 0, needed := None), Got(r))
  }

  /** One call of `receive`. */
  function Step(d: Decoder, ch: u8): (r: (Decoder, Answer))
    requires ValidDecoder(d)
    ensures ValidDecoder(r.0)
  {
    if d.state == Loading then
      if ch == ESCAPE_CHAR then (d.(state := Escaped), Quiet) else LoadChar(d, ch)
    else
      var d := d.(state := Loading);
      match ch
      case 0xFC => LoadChar(d, ch)
      case 0x11 => Simple(d, Pong)
      case 0x10 => Simple(d, Overflow)
      case 0x12 => Simple(d, BadAddress)
      case 0x13 => Simple(d, InternalError)
      case 0x14 => Simple(d, Response.BadArguments)
      case 0x15 => Simple(d, Okay)
      case 0x16 => Simple(d, Unknown)
      case 0x17 => Simple(d, ExtFlashTimeout)
      case 0x18 => Simple(d, ExtFlashPageError)
      case 0x26 => Simple(d, ChangeBaudFail)
      case 0x19 => Bounded(d, 6, ch)
      case 0x20 => Unbounded(d, ch)
      case 0x21 => Unbounded(d, ch)
      case 0x22 => Bounded(d, 1 + KEY_LEN + MAX_ATTR_LEN, ch)
      case 0x23 => Bounded(d, 4, ch)
      case 0x24 => Bounded(d, 4, ch)
      case 0x25 => Bounded(d, 1 + MAX_INFO_LEN, ch)
      case _ => (d, Quiet)
  }

  class ResponseDecoder {
    var state: DecoderState
    const buffer: array<u8>
    var count: nat
    var needed: Option<nat>

    ghost predicate Valid()
      reads this
    {
      buffer.Length == BUFFER_LEN && count <= BUFFER_LEN && needed != Some(0)
    }

    function View(): (d: Decoder)
      requires Valid()
      reads this, buffer
      ensures ValidDecoder(d)
    {
      Decoder(state, buffer[..], count, needed)
    }

    constructor ()
      ensures Valid() && fresh(buffer) && View() == Decoder(Loading, buffer[..], 0, None)
    {
      state := Loading;
      buffer := new u8[BUFFER_LEN](_ => 0);
      count := 0;
      needed := None;
    }

    method Reset()
      requires Valid()
      modifies this`count
      ensures Valid() && View() == old(View()).(count := 0)
    {
      count := 0;
    }

    method SetPayloadLength(length: nat) returns (ok: bool)
      requires Valid()
      modifies this`needed
      ensures Valid() && (View(), ok) == SetPayloadLen(old(View()), length)
    {
      if needed.Some? {
        return false;
      }
      needed := Some(length + 1);
      ok := true;
    }

    method Load(ch: u8) returns (answer: Answer)
      requires Valid()
      modifies this`count, this`needed, buffer
      ensures Valid() && (View(), answer) == LoadChar(old(View()), ch)
    {
      if count < buffer.Length {
        buffer[count] := ch;
        count := count + 1;
      }
      if needed == Some(count) {
        answer := Interpret(buffer[..], count);
        needed := None;
        count := 0;
      } else {
        answer := Quiet;
      }
    }

    method LoadFirst(ch: u8) returns (answer: Answer)
      requires Valid()
      modifies this`count, this`needed, buffer
      ensures Valid() && (View(), answer) == LoadHeader(old(View()), ch)
    {
      answer := Load(ch);
      if !answer.Failed? {
        answer := Quiet;
      }
    }

    method HandleLoading(ch: u8) returns (answer: Answer)
      requires Valid() && state == Loading
      modifies this, buffer
      ensures Valid() && (View(), answer) == Step(old(View()), ch)
    {
      if ch == ESCAPE_CHAR {
        state := Escaped;
        answer := Quiet;
      } else {
        answer := Load(ch);
      }
    }

    method Finish(r: Response) returns (answer: Answer)
      requires Valid()
      modifies this`count, this`needed
      ensures Valid() && (View(), answer) == Simple(old(View()), r)
    {
      count := 0;
      needed := None;
      answer := Got(r);
    }

    method StartBounded(length: nat, ch: u8) returns (answer: Answer)
      requires Valid()
      modifies this`count, this`needed, buffer
      ensures Valid() && (View(), answer) == Bounded(old(View()), length, ch)
    {
      var ok := SetPayloadLength(length);
      if !ok {
        return Failed(SetLength);
      }
      answer := LoadFirst(ch);
    }

    method StartUnbounded(ch: u8) returns (answer: Answer)
      requires Valid()
      modifies this`count, this`needed, buffer
      ensures Valid() && (View(), answer) == Unbounded(old(View()), ch)
    {
      if needed.None? {
        return Failed(UnsetLength);
      }
      answer := LoadFirst(ch);
    }

    method HandleEscape(ch: u8) returns (answer: Answer)
      requires Valid() && state == Escaped
      modifies this, buffer
      ensures Valid() && (View(), answer) == Step(old(View()), ch)
    {
      state := Loading;
      match ch {
        case 0xFC => answer := Load(ch);
        case 0x11 => answer := Finish(Pong);
        case 0x10 => answer := Finish(Overflow);
        case 0x12 => answer := Finish(BadAddress);
        case 0x13 => answer := Finish(InternalError);
        case 0x14 => answer := Finish(Response.BadArguments);
        case 0x15 => answer := Finish(Okay);
        case 0x16 => answer := Finish(Unknown);
        case 0x17 => answer := Finish(ExtFlashTimeout);
        case 0x18 => answer := Finish(ExtFlashPageError);
        case 0x26 => answer := Finish(ChangeBaudFail);
        case 0x19 => answer := StartBounded(6, ch);
        case 0x20 => answer := StartUnbounded(ch);
        case 0x21 => answer := StartUnbounded(ch);
        case 0x22 => answer := StartBounded(1 + KEY_LEN + MAX_ATTR_LEN, ch);
        case 0x23 => answer := StartBounded(4, ch);
        case 0x24 => answer := StartBounded(4, ch);
        case 0x25 => answer := StartBounded(1 + MAX_INFO_LEN, ch);
        case _ => answer := Quiet;
      }
    }

    method Receive(ch: u8) returns (answer: Answer)
      requires Valid()
      modifies this, buffer
      ensures Valid() && (View(), answer) == Step(old(View()), ch)
    {
      match state {
        case Loading => answer := HandleLoading(ch);
        case Escaped => answer := HandleEscape(ch);
      }
    }
  }
}
