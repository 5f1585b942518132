/** `ResponseEncoder`: hands out the bytes of a response one at a time. */
module ResponseEncoding {
  import opened Bytes
  import opened Framing
  import opened Responses

  /** A response's `render_byte` leaves `sent_escape` alone for an ordinary byte. */
  function RenderRaw(sentEscape: bool, b: u8): Rendered {
    if b == ESCAPE_CHAR then Render(sentEscape, b) else Rendered(1, Some(b), sentEscape)
  }

  /** What rendering position `count` of a response must yield: the header, then the body with escapes. */
  function RenderAt(code: u8, body: seq<u8>, count: nat, sentEscape: bool): Rendered {
    if count == 0 then Rendered(1, Some(ESCAPE_CHAR), sentEscape)
    else if count == 1 then Rendered(1, Some(code), sentEscape)
    else if count < |body| + 2 then RenderRaw(sentEscape, body[count - 2])
    else Rendered(0, None, sentEscape)
  }

  ghost predicate Consistent(body: seq<u8>, count: nat, sentEscape: bool) {
    && count <= |body| + 2
    && (sentEscape ==> 2 <= count < |body| + 2 && body[count - 2] == ESCAPE_CHAR)
  }

  ghost function StillToCome(code: u8, body: seq<u8>, count: nat, sentEscape: bool): seq<u8>
    requires Consistent(body, count, sentEscape)
  {
    if count == 0 then [ESCAPE_CHAR, code] + Escape(body)
    else if count == 1 then [code] + Escape(body)
    else Pending(body, count - 2, sentEscape)
  }

  lemma HeaderTakesOne(code: u8, body: seq<u8>, count: nat)
    requires count < 2
    ensures StillToCome(code, body, count, false)
      == [if count == 0 then ESCAPE_CHAR else code] + StillToCome(code, body, count + 1, false)
  {
    if count == 1 {
      assert body[0..] == body;
    }
  }

  lemma BodyTakesOne(code: u8, body: seq<u8>, count: nat, sentEscape: bool)
    requires Consistent(body, count, sentEscape) && 2 <= count < |body| + 2
    ensures var r := RenderRaw(sentEscape, body[count - 2]);
      && Consistent(body, count + r.increment, r.sentEscape) && r.out.Some?
      && StillToCome(code, body, count, sentEscape)
         == [r.out.value] + StillToCome(code, body, count + r.increment, r.sentEscape)
  {
    RenderPending(body, count - 2, sentEscape);
  }

  /** Rendering position `count` takes exactly the first byte off what is still to come. */
  lemma RenderTakesOne(code: u8, body: seq<u8>, count: nat, sentEscape: bool)
    requires Consistent(body, count, sentEscape)
    ensures var r := RenderAt(code, body, count, sentEscape);
      && Consistent(body, count + r.increment, r.sentEscape)
      && (r.out.None? <==> StillToCome(code, body, count, sentEscape) == [])
      && StillToCome(code, body, count, sentEscape)
         == AsSeq(r.out) + StillToCome(code, body, count + r.increment, r.sentEscape)
  {
    if count < 2 {
      HeaderTakesOne(code, body, count);
    } else if count < |body| + 2 {
      BodyTakesOne(code, body, count, sentEscape);
    } else {
      assert body[count - 2..] == [];
    }
  }

  class ResponseEncoder {
    const response: Response
    var count: nat
    var sentEscape: bool

    ghost predicate Valid()
      reads this
    {
      Accepted(response) && Consistent(Body(response), count, sentEscape)
    }

    /** The bytes `Next` has yet to hand out. */
    ghost function Remaining(): seq<u8>
      requires Valid()
      reads this
    {
      StillToCome(Code(response), Body(response), count, sentEscape)
    }

    constructor (response: Response)
      requires Accepted(response)
      ensures Valid() && this.response == response && Remaining() == Wire(response)
    {
      this.response := response;
      count := 0;
      sentEscape := false;
    }

    /** `ResponseEncoder::new` checks the lengths it was given. */
    static method New(response: Response) returns (r: Option<ResponseEncoder>)
      ensures r.Some? <==> Accepted(response)
      ensures r.Some? ==>
        fresh(r.value) && r.value.Valid() && r.value.response == response && r.value.Remaining() == Wire(response)
    {
      r := None;
      match response {
        case GetAttr(key, value) =>
          if |key| != KEY_LEN { return; }
          if |value| > MAX_ATTR_LEN { return; }
        case Info(info) =>
          if |info| > MAX_INFO_LEN { return; }
        case _ =>
      }
      var e := new ResponseEncoder(response);
      r := Some(e);
    }

    method Reset()
      requires Accepted(response)
      modifies this
      ensures Valid() && Remaining() == Wire(response)
    {
      count := 0;
      sentEscape := false;
    }

    method RenderByte(b: u8) returns (increment: nat, out: Option<u8>)
      modifies `sentEscape
      ensures Rendered(increment, out, sentEscape) == RenderRaw(old(sentEscape), b)
    {
      if b == ESCAPE_CHAR {
        if sentEscape {
          sentEscape := false;
          return 1, Some(ESCAPE_CHAR);
        } else {
          sentEscape := true;
          return 0, Some(ESCAPE_CHAR);
        }
      } else {
        return 1, Some(b);
      }
    }

    method RenderHeader(count: nat, code: u8) returns (increment: nat, out: Option<u8>)
      ensures Rendered(increment, out, sentEscape) == RenderAt(code, [], count, sentEscape)
    {
      match count {
        case 0 => increment, out := 1, Some(ESCAPE_CHAR);
        case 1 => increment, out := 1, Some(code);
        case _ => increment, out := 0, None;
      }
    }

    method RenderU16(idx: nat, value: u16) returns (increment: nat, out: Option<u8>)
      modifies `sentEscape
      ensures Rendered(increment, out, sentEscape) ==
        if idx < 2 then RenderRaw(old(sentEscape), LeU16(value)[idx]) else Rendered(0, None, old(sentEscape))
    {
      match idx {
        case 0 => increment, out := RenderByte(value % 256);
        case 1 => increment, out := RenderByte(value / 256);
        case _ => increment, out := 0, None;
      }
    }

    method RenderU32(idx: nat, value: u32) returns (increment: nat, out: Option<u8>)
      modifies `sentEscape
      ensures Rendered(increment, out, sentEscape) ==
        if idx < 4 then RenderRaw(old(sentEscape), LeU32(value)[idx]) else Rendered(0, None, old(sentEscape))
    {
      match idx {
        case 0 => increment, out := RenderByte(value % 256);
        case 1 => increment, out := RenderByte(value / 256 % 256);
        case 2 => increment, out := RenderByte(value / 65536 % 256);
        case 3 => increment, out := RenderByte(value / 16777216);
        case _ => increment, out := 0, None;
      }
    }

    method RenderBuffer(idx: nat, pageSize: nat, data: seq<u8>) returns (increment: nat, out: Option<u8>)
      requires |data| <= pageSize
      modifies `sentEscape
      ensures Rendered(increment, out, sentEscape) ==
        if idx < pageSize then RenderRaw(old(sentEscape), Padded(data, pageSize)[idx])
        else Rendered(0, None, old(sentEscape))
    {
      if idx < |data| && idx < pageSize {
        increment, out := RenderByte(data[idx]);
      } else if idx < pageSize {
        increment, out := RenderByte(0x00);
      } else {
        increment, out := 0, None;
      }
    }

    method RenderCrcRxBuffer(length: u16, crc: u32) returns (increment: nat, out: Option<u8>)
      modifies `sentEscape
      ensures Rendered(increment, out, sentEscape)
        == RenderAt(RES_CRCRX, LeU16(length) + LeU32(crc), count, old(sentEscape))
    {
      if count <= 1 {
        increment, out := RenderHeader(count, RES_CRCRX);
      } else if count <= 3 {
        increment, out := RenderU16(count - 2, length);
      } else if count <= 7 {
        increment, out := RenderU32(count - 4, crc);
      } else {
        increment, out := 0, None;
      }
    }

    method RenderReadRange(data: seq<u8>) returns (increment: nat, out: Option<u8>)
      modifies `sentEscape
      ensures Rendered(increment, out, sentEscape) == RenderAt(RES_RRANGE, data, count, old(sentEscape))
    {
      if count <= 1 {
        increment, out := RenderHeader(count, RES_RRANGE);
      } else if count < |data| + 2 {
        increment, out := RenderByte(data[count - 2]);
      } else {
        increment, out := 0, None;
      }
    }

    method RenderExReadRange(data: seq<u8>) returns (increment: nat, out: Option<u8>)
      modifies `sentEscape
      ensures Rendered(increment, out, sentEscape) == RenderAt(RES_XRRANGE, data, count, old(sentEscape))
    {
      if count <= 1 {
        increment, out := RenderHeader(count, RES_XRRANGE);
      } else if count - 2 < |data| {
        increment, out := RenderByte(data[count - 2]);
      } else {
        increment, out := 0, None;
      }
    }

    method RenderGetAttr(key: seq<u8>, value: seq<u8>) returns (increment: nat, out: Option<u8>)
      requires |key| == KEY_LEN && |value| <= MAX_ATTR_LEN
      modifies `sentEscape
      ensures Rendered(increment, out, sentEscape)
        == RenderAt(RES_GATTR, key + [|value| as u8] + Padded(value, MAX_ATTR_LEN), count, old(sentEscape))
    {
      if count <= 1 {
        increment, out := RenderHeader(count, RES_GATTR);
      } else if count <= 9 {
        increment, out := RenderBuffer(count - 2, 8, key);
      } else if count == 10 {
        increment, out := RenderByte(|value| as u8);
      } else {
        increment, out := RenderBuffer(count - 11, MAX_ATTR_LEN, value);
      }
    }

    method RenderCrc(code: u8, crc: u32) returns (increment: nat, out: Option<u8>)
      modifies `sentEscape
      ensures Rendered(increment, out, sentEscape) == RenderAt(code, LeU32(crc), count, old(sentEscape))
    {
      if count <= 1 {
        increment, out := RenderHeader(count, code);
      } else {
        increment, out := RenderU32(count - 2, crc);
      }
    }

    method RenderInfo(info: seq<u8>) returns (increment: nat, out: Option<u8>)
      requires |info| <= MAX_INFO_LEN
      modifies `sentEscape
      ensures Rendered(increment, out, sentEscape)
        == RenderAt(RES_INFO, [|info| as u8] + Padded(info, MAX_INFO_LEN), count, old(sentEscape))
    {
      if count <= 1 {
        increment, out := RenderHeader(count, RES_INFO);
      } else if count == 2 {
        increment, out := RenderByte(|info| as u8);
      } else {
        increment, out := RenderBuffer(count - 3, MAX_INFO_LEN, info);
      }
    }

    method RenderResponse() returns (increment: nat, out: Option<u8>)
      requires Accepted(response)
      modifies `sentEscape
      ensures Rendered(increment, out, sentEscape)
        == RenderAt(Code(response), Body(response), count, old(sentEscape))
    {
      match response {
        case Overflow => increment, out := RenderHeader(count, RES_OVERFLOW);
        case Pong => increment, out := RenderHeader(count, RES_PONG);
        case BadAddress => increment, out := RenderHeader(count, RES_BADADDR);
        case InternalError => increment, out := RenderHeader(count, RES_INTERROR);
        case BadArguments => increment, out := RenderHeader(count, RES_BADARGS);
        case Okay => increment, out := RenderHeader(count, RES_OK);
        case Unknown => increment, out := RenderHeader(count, RES_UNKNOWN);
        case ExtFlashTimeout => increment, out := RenderHeader(count, RES_XFTIMEOUT);
        case ExtFlashPageError => increment, out := RenderHeader(count, RES_XFEPE);
        case CrcRxBuffer(length, crc) => increment, out := RenderCrcRxBuffer(length, crc);
        case ReadRange(data) => increment, out := RenderReadRange(data);
        case ExReadRange(data) => increment, out := RenderExReadRange(data);
        case GetAttr(key, value) => increment, out := RenderGetAttr(key, value);
        case CrcIntFlash(crc) => increment, out := RenderCrc(RES_CRCIF, crc);
        case CrcExtFlash(crc) => increment, out := RenderCrc(RES_CRCXF, crc);
        case Info(info) => increment, out := RenderInfo(info);
        case ChangeBaudFail => increment, out := RenderHeader(count, RES_CHANGE_BAUD_FAIL);
      }
    }

    /** Hands out the next byte; once all are out it answers `None` for ever. */
    method Next() returns (out: Option<u8>)
      requires Valid()
      modifies this
      ensures Valid()
      ensures out.None? <==> old(Remaining()) == []
      ensures old(Remaining()) == AsSeq(out) + Remaining()
    {
      RenderTakesOne(Code(response), Body(response), count, sentEscape);
      var increment: nat;
      increment, out := RenderResponse();
      count := count + increment;
    }
  }
}
