/** Whatever a `ResponseEncoder` sends, one `ResponseDecoder` delivers. */
module ResponseRoundTrip {
  import opened Bytes
  import opened Framing
  import opened Responses
  import opened ResponseDecoding

  /** A decoder fed a whole byte string: the decoder afterwards, and every answer it gave. */
  function After(d: Decoder, bytes: seq<u8>): (r: Decoder)
    requires ValidDecoder(d)
    ensures ValidDecoder(r)
    decreases |bytes|
  {
    if bytes == [] then d else After(Step(d, bytes[0]).0, bytes[1..])
  }

  function Answers(d: Decoder, bytes: seq<u8>): (r: seq<Answer>)
    requires ValidDecoder(d)
    ensures |r| == |bytes|
    decreases |bytes|
  {
    if bytes == [] then [] else [Step(d, bytes[0]).1] + Answers(Step(d, bytes[0]).0, bytes[1..])
  }

  function Quiets(n: nat): (s: seq<Answer>)
    ensures |s| == n
  {
    seq(n, _ => Quiet)
  }

  lemma {:induction false} FeedConcat(d: Decoder, a: seq<u8>, b: seq<u8>)
    requires ValidDecoder(d)
    ensures After(d, a + b) == After(After(d, a), b)
    ensures Answers(d, a + b) == Answers(d, a) + Answers(After(d, a), b)
    decreases |a|
  {
    if a == [] {
      assert a + b == b;
    } else {
      assert (a + b)[0] == a[0] && (a + b)[1..] == a[1..] + b;
      FeedConcat(Step(d, a[0]).0, a[1..], b);
    }
  }

  lemma FeedTwo(d: Decoder, a: u8, b: u8)
    requires ValidDecoder(d)
    ensures After(d, [a, b]) == Step(Step(d, a).0, b).0
    ensures Answers(d, [a, b]) == [Step(d, a).1, Step(Step(d, a).0, b).1]
  {
    assert [a, b][1..] == [b] && [b][1..] == [];
    var d1, d2 := Step(d, a).0, Step(Step(d, a).0, b).0;
    assert After(d1, [b]) == After(d2, []) == d2;
    assert Answers(d1, [b]) == [Step(d1, b).1] + Answers(d2, []);
  }

  /** Waiting for the next packet, whatever an earlier one left in the buffer. */
  predicate Idle(d: Decoder) {
    ValidDecoder(d) && d.state == Loading && d.count == 0 && d.needed.None?
  }

  /** One payload byte, escaped if need be, is one call of `load_char`. */
  lemma FeedEscapedByte(d: Decoder, b: u8)
    requires ValidDecoder(d) && d.state == Loading
    ensures After(d, EscapeByte(b)) == LoadChar(d, b).0
    ensures Answers(d, EscapeByte(b)) == Quiets(|EscapeByte(b)| - 1) + [LoadChar(d, b).1]
  {
    if b == ESCAPE_CHAR {
      FeedTwo(d, b, b);
    } else {
      assert [b][1..] == [] && After(d, [b]) == After(Step(d, b).0, []);
      assert Answers(d, [b]) == [Step(d, b).1] + Answers(Step(d, b).0, []);
    }
  }

  lemma LoadSilent(d: Decoder, b: u8)
    requires ValidDecoder(d) && d.count < BUFFER_LEN && d.needed != Some(d.count + 1)
    ensures var (d1, answer) := LoadChar(d, b);
      && answer == Quiet && d1.state == d.state && d1.count == d.count + 1 && d1.needed == d.needed
      && d1.buffer[..d1.count] == d.buffer[..d.count] + [b]
  {
  }

  /** Short of the expected length, bytes are collected in silence. */
  lemma {:induction false} FeedPart(d: Decoder, p: seq<u8>)
    requires ValidDecoder(d) && d.state == Loading && d.count + |p| <= BUFFER_LEN
    requires d.needed.Some? ==> d.count + |p| < d.needed.value
    ensures var d1 := After(d, Escape(p));
      && d1.state == Loading && d1.count == d.count + |p| && d1.needed == d.needed
      && d1.buffer[..d1.count] == d.buffer[..d.count] + p
    ensures Answers(d, Escape(p)) == Quiets(|Escape(p)|)
    decreases |p|
  {
    if p == [] {
    } else {
      LoadSilent(d, p[0]);
      FeedEscapedByte(d, p[0]);
      FeedConcat(d, EscapeByte(p[0]), Escape(p[1..]));
      FeedPart(LoadChar(d, p[0]).0, p[1..]);
      assert d.buffer[..d.count] + [p[0]] + p[1..] == d.buffer[..d.count] + p;
    }
  }

  lemma LoadLast(d: Decoder, last: u8, total: nat) returns (answer: Answer)
    requires ValidDecoder(d) && d.state == Loading && d.count + 1 == total <= BUFFER_LEN && d.needed == Some(total)
    ensures var d1 := LoadChar(d, last).0;
      && Idle(d1) && d1.buffer[..total] == d.buffer[..d.count] + [last]
      && answer == Interpret(d1.buffer, total)
    ensures answer == LoadChar(d, last).1
  {
    answer := LoadChar(d, last).1;
  }

  lemma JoinAnswers(d: Decoder, init: seq<u8>, last: u8, answer: Answer)
    requires ValidDecoder(d) && Answers(d, Escape(init)) == Quiets(|Escape(init)|)
    requires Answers(After(d, Escape(init)), EscapeByte(last)) == Quiets(|EscapeByte(last)| - 1) + [answer]
    ensures After(d, Escape(init + [last])) == After(After(d, Escape(init)), EscapeByte(last))
    ensures Answers(d, Escape(init + [last])) == Quiets(|Escape(init + [last])| - 1) + [answer]
  {
    hide Escape, Answers, After;
    EscapeAppend(init, last);
    FeedConcat(d, Escape(init), EscapeByte(last));
  }

  /** The byte that completes the packet brings the answer and leaves the decoder idle. */
  lemma FeedBody(d: Decoder, p: seq<u8>, total: nat) returns (answer: Answer)
    requires ValidDecoder(d) && d.state == Loading && p != []
    requires d.count + |p| == total <= BUFFER_LEN && d.needed == Some(total)
    ensures var d1 := After(d, Escape(p));
      && Idle(d1)
      && d1.buffer[..total] == d.buffer[..d.count] + p
      && answer == Interpret(d1.buffer, total)
    ensures Answers(d, Escape(p)) == Quiets(|Escape(p)| - 1) + [answer]
  {
    hide Escape, Answers, After, Interpret, LoadChar;
    var init, last := p[..|p| - 1], p[|p| - 1];
    assert p == init + [last];
    FeedPart(d, init);
    var d1 := After(d, Escape(init));
    FeedEscapedByte(d1, last);
    answer := LoadLast(d1, last, total);
    JoinAnswers(d, init, last, answer);
    Reassociate(d.buffer[..d.count], init, [last]);
  }

  // ---- one response ---------------------------------------------------------

  predicate IsRange(r: Response) {
    r.ReadRange? || r.ExReadRange?
  }

  /** The host calls `set_payload_len` before a response whose length the header does not tell. */
  function Prepare(d: Decoder, r: Response): Decoder {
    if IsRange(r) then SetPayloadLen(d, |r.data|).0 else d
  }

  predicate IsSimple(r: Response) {
    !(r.CrcRxBuffer? || IsRange(r) || r.GetAttr? || r.CrcIntFlash? || r.CrcExtFlash? || r.Info?)
  }

  /** Accepted by the encoder, and short enough for the decoder's buffer. */
  predicate Deliverable(r: Response) {
    Accepted(r) && (IsRange(r) ==> 1 <= |r.data| <= BUFFER_LEN - 1)
  }

  lemma FirstByte(buffer: seq<u8>, code: u8, body: seq<u8>)
    requires 1 + |body| <= |buffer| && buffer[..1 + |body|] == [code] + body
    ensures buffer[0] == code && buffer[1..1 + |body|] == body
  {
    assert buffer[0] == buffer[..1 + |body|][0];
    assert buffer[1..1 + |body|] == buffer[..1 + |body|][1..];
  }

  lemma AttributeInverts(key: seq<u8>, value: seq<u8>, buffer: seq<u8>)
    requires |key| == KEY_LEN && |value| <= MAX_ATTR_LEN && |buffer| == BUFFER_LEN && buffer[0] == RES_GATTR
    requires buffer[1..65] == key + [|value| as u8] + Padded(value, MAX_ATTR_LEN)
    ensures Interpret(buffer, 65) == Got(GetAttr(key, value))
  {
    hide Padded, Interpret;
    var body := buffer[1..65];
    AttributeParts(body, key, value);
    SliceOfSlice(buffer, 1, 64, 0, 8);
    SliceOfSlice(buffer, 1, 64, 9, |value|);
    assert buffer[9] == body[8];
    InterpretAttribute(buffer);
  }

  lemma AttributeParts(body: seq<u8>, key: seq<u8>, value: seq<u8>)
    requires |key| == KEY_LEN && |value| <= MAX_ATTR_LEN && body == key + [|value| as u8] + Padded(value, MAX_ATTR_LEN)
    ensures |body| == 64 && body[0..8] == key && body[8] == |value| && body[9..9 + |value|] == value
  {
    var rest := Padded(value, MAX_ATTR_LEN);
    assert rest[..|value|] == value;
    assert body[9..9 + |value|] == rest[..|value|];
  }

  lemma InterpretAttribute(buffer: seq<u8>)
    requires |buffer| == BUFFER_LEN && buffer[0] == RES_GATTR && buffer[9] <= 55
    ensures Interpret(buffer, 65) == Got(GetAttr(buffer[1..9], buffer[10..10 + buffer[9] as nat]))
  {
  }

  lemma InfoInverts(info: seq<u8>, buffer: seq<u8>)
    requires |info| <= MAX_INFO_LEN && |buffer| == BUFFER_LEN && buffer[0] == RES_INFO
    requires buffer[1..194] == [|info| as u8] + Padded(info, MAX_INFO_LEN)
    ensures Interpret(buffer, 194) == Got(Info(info))
  {
    var body, length, pad := buffer[1..194], [|info| as u8], seq(MAX_INFO_LEN - |info|, _ => 0);
    assert body == length + info + pad;
    MiddleOf(length, info, pad);
    SliceOfSlice(buffer, 1, 193, 1, |info|);
    assert buffer[1] == body[0] == length[0];
  }

  lemma CrcInverts(r: Response, crc: u32, buffer: seq<u8>)
    requires r == CrcIntFlash(crc) || r == CrcExtFlash(crc)
    requires |buffer| == BUFFER_LEN && buffer[0] == Code(r) && buffer[1..5] == LeU32(crc)
    ensures Interpret(buffer, 5) == Got(r)
  {
    LeU32RoundTrip(crc, [0, 0, 0, 0]);
  }

  lemma CrcRxInverts(length: u16, crc: u32, buffer: seq<u8>)
    requires |buffer| == BUFFER_LEN && buffer[0] == RES_CRCRX
    requires buffer[1..7] == LeU16(length) + LeU32(crc)
    ensures Interpret(buffer, 7) == Got(CrcRxBuffer(length, crc))
  {
    assert buffer[1..3] == buffer[1..7][..2] && buffer[3..7] == buffer[1..7][2..];
    LeU16RoundTrip(length, [0, 0]);
    LeU32RoundTrip(crc, [0, 0, 0, 0]);
  }

  /** Read back from the buffer, the packet is the response it was made from. */
  lemma InterpretInverts(r: Response, buffer: seq<u8>)
    requires Accepted(r) && !IsSimple(r) && |buffer| == BUFFER_LEN && |Body(r)| < BUFFER_LEN
    requires buffer[..1 + |Body(r)|] == [Code(r)] + Body(r)
    ensures Interpret(buffer, 1 + |Body(r)|) == Got(r)
  {
    FirstByte(buffer, Code(r), Body(r));
    match r
    case CrcRxBuffer(length, crc) => CrcRxInverts(length, crc, buffer);
    case ReadRange(_) =>
    case ExReadRange(_) =>
    case GetAttr(key, value) => AttributeInverts(key, value, buffer);
    case CrcIntFlash(crc) => CrcInverts(r, crc, buffer);
    case CrcExtFlash(crc) => CrcInverts(r, crc, buffer);
    case Info(info) => InfoInverts(info, buffer);
  }

  /** The header of a response with a body sets the decoder up for exactly that body. */
  lemma FeedHeader(d: Decoder, r: Response)
    requires Idle(d) && Deliverable(r) && !IsSimple(r)
    ensures var d1 := After(Prepare(d, r), [ESCAPE_CHAR, Code(r)]);
      && ValidDecoder(d1) && d1.state == Loading && d1.count == 1
      && d1.needed == Some(1 + |Body(r)|) && d1.buffer[..1] == [Code(r)]
    ensures Answers(Prepare(d, r), [ESCAPE_CHAR, Code(r)]) == [Quiet, Quiet]
  {
    FeedTwo(Prepare(d, r), ESCAPE_CHAR, Code(r));
  }

  lemma AfterHeader(d: Decoder, header: seq<u8>, body: seq<u8>, answer: Answer)
    requires ValidDecoder(d) && |header| == 2 && Answers(d, header) == [Quiet, Quiet] && body != []
    requires Answers(After(d, header), body) == Quiets(|body| - 1) + [answer]
    ensures After(d, header + body) == After(After(d, header), body)
    ensures Answers(d, header + body) == Quiets(|header + body| - 1) + [answer]
  {
    FeedConcat(d, header, body);
  }

  lemma FeedKnownBody(d1: Decoder, r: Response)
    requires Deliverable(r) && !IsSimple(r)
    requires ValidDecoder(d1) && d1.state == Loading && d1.count == 1
    requires d1.needed == Some(1 + |Body(r)|) && d1.buffer[..1] == [Code(r)]
    ensures Idle(After(d1, Escape(Body(r))))
    ensures Answers(d1, Escape(Body(r))) == Quiets(|Escape(Body(r))| - 1) + [Got(r)]
  {
    var answer := FeedBody(d1, Body(r), 1 + |Body(r)|);
    InterpretInverts(r, After(d1, Escape(Body(r))).buffer);
  }

  lemma FeedCompound(d: Decoder, r: Response)
    requires Idle(d) && Deliverable(r) && !IsSimple(r)
    ensures Idle(After(Prepare(d, r), Wire(r)))
    ensures Answers(Prepare(d, r), Wire(r)) == Quiets(|Wire(r)| - 1) + [Got(r)]
  {
    var d0, header := Prepare(d, r), [ESCAPE_CHAR, Code(r)];
    FeedHeader(d, r);
    FeedKnownBody(After(d0, header), r);
    AfterHeader(d0, header, Escape(Body(r)), Got(r));
  }

  lemma FeedWire(d: Decoder, r: Response)
    requires Idle(d) && Deliverable(r)
    ensures Idle(After(Prepare(d, r), Wire(r)))
    ensures Answers(Prepare(d, r), Wire(r)) == Quiets(|Wire(r)| - 1) + [Got(r)]
  {
    if IsSimple(r) {
      FeedTwo(d, ESCAPE_CHAR, Code(r));
      assert Wire(r) == [ESCAPE_CHAR, Code(r)];
    } else {
      FeedCompound(d, r);
    }
  }

  // ---- a whole session ------------------------------------------------------

  function SessionEnd(d: Decoder, rs: seq<Response>): Decoder
    requires ValidDecoder(d) && forall r :: r in rs ==> Accepted(r)
    decreases |rs|
  {
    if rs == [] then d else SessionEnd(After(Prepare(d, rs[0]), Wire(rs[0])), rs[1..])
  }

  function SessionAnswers(d: Decoder, rs: seq<Response>): seq<Answer>
    requires ValidDecoder(d) && forall r :: r in rs ==> Accepted(r)
    decreases |rs|
  {
    if rs == [] then []
    else
      var d1 := Prepare(d, rs[0]);
      Answers(d1, Wire(rs[0])) + SessionAnswers(After(d1, Wire(rs[0])), rs[1..])
  }

  /** Silence except on the last byte of each response, where that response is delivered. */
  function Deliveries(rs: seq<Response>): seq<Answer>
    requires forall r :: r in rs ==> Accepted(r)
  {
    if rs == [] then [] else Quiets(|Wire(rs[0])| - 1) + [Got(rs[0])] + Deliveries(rs[1..])
  }

  /** Every sequence of deliverable responses decodes back to itself through one decoder; the padding of
      attributes and of the information string is not part of what is delivered. */
  lemma {:induction false} StreamRoundTrip(d: Decoder, rs: seq<Response>)
    requires Idle(d) && forall r :: r in rs ==> Deliverable(r) && Accepted(r)
    ensures Idle(SessionEnd(d, rs))
    ensures SessionAnswers(d, rs) == Deliveries(rs)
    decreases |rs|
  {
    if rs != [] {
      FeedWire(d, rs[0]);
      StreamRoundTrip(After(Prepare(d, rs[0]), Wire(rs[0])), rs[1..]);
    }
  }

  // ---- exactly which range responses arrive -----------------------------------

  /** With an unreachable length set, a decoder collects for ever. */
  lemma {:induction false} FeedForEver(d: Decoder, p: seq<u8>)
    requires ValidDecoder(d) && d.state == Loading && d.needed.Some? && d.needed.value > BUFFER_LEN
    ensures Answers(d, Escape(p)) == Quiets(|Escape(p)|)
    decreases |p|
  {
    if p != [] {
      FeedEscapedByte(d, p[0]);
      FeedConcat(d, EscapeByte(p[0]), Escape(p[1..]));
      FeedForEver(LoadChar(d, p[0]).0, p[1..]);
    }
  }

  lemma RangeHeader(d: Decoder, r: Response)
    requires Idle(d) && IsRange(r) && (|r.data| == 0 || |r.data| >= BUFFER_LEN)
    ensures var (d0, header) := (Prepare(d, r), [ESCAPE_CHAR, Code(r)]);
      && Answers(d0, header) == [Quiet, Quiet]
      && if |r.data| == 0 then Idle(After(d0, header))
         else After(d0, header).state == Loading && After(d0, header).needed == Some(|r.data| + 1)
  {
    FeedTwo(Prepare(d, r), ESCAPE_CHAR, Code(r));
  }

  /** A range response arrives if and only if it carries between 1 and 4223 bytes: an empty one is dropped
      with its header, a longer one never completes. */
  lemma RangeArrivesIff(d: Decoder, r: Response)
    requires Idle(d) && IsRange(r)
    ensures Got(r) in Answers(Prepare(d, r), Wire(r)) <==> 1 <= |r.data| <= 4223
    ensures |r.data| == 0 ==> Idle(After(Prepare(d, r), Wire(r)))
  {
    var d0, header := Prepare(d, r), [ESCAPE_CHAR, Code(r)];
    assert ValidDecoder(d0) && Idle(d);
    hide Step, Interpret, Prepare;
    if 1 <= |r.data| <= BUFFER_LEN - 1 {
      FeedWire(d, r);
      assert Answers(d0, Wire(r))[|Wire(r)| - 1] == Got(r);
    } else {
      RangeHeader(d, r);
      if r.data == [] {
        assert Wire(r) == header;
      } else {
        FeedConcat(d0, header, Escape(Body(r)));
        FeedForEver(After(d0, header), Body(r));
        assert Answers(d0, Wire(r)) == [Quiet, Quiet] + Quiets(|Escape(Body(r))|);
      }
    }
  }

  // ---- bodies sent without escaping -------------------------------------------

  /** Silence, then the response on the last byte. */
  predicate ArrivesAs(d: Decoder, bytes: seq<u8>, answer: Answer)
    requires ValidDecoder(d)
  {
    bytes != [] && Answers(d, bytes) == Quiets(|bytes| - 1) + [answer]
  }

  /** Once a byte has been taken for an escape, too few are left to complete the packet. */
  lemma {:induction false} TooFewLeft(d: Decoder, p: seq<u8>, r: Response)
    requires ValidDecoder(d) && d.needed.Some? && d.needed.value > d.count + |p|
    ensures !ArrivesAs(d, p, Got(r))  || IsSimple(r)
    decreases |p|
  {
    if p != [] {
      var (d1, a) := Step(d, p[0]);
      assert Answers(d, p) == [a] + Answers(d1, p[1..]);
      if |p| == 1 {
        assert Answers(d, p)[0] == a;
      } else if ArrivesAs(d, p, Got(r)) {
        assert Answers(d, p)[0] == Quiet;
        assert Answers(d, p)[1..] == Quiets(|p| - 2) + [Got(r)];
        TooFewLeft(d1, p[1..], r);
      }
    }
  }

  /** A body sent raw completes its packet if and only if it holds no escape byte. */
  lemma {:induction false} RawBody(d: Decoder, p: seq<u8>, r: Response)
    requires ValidDecoder(d) && d.state == Loading && p != [] && !IsSimple(r)
    requires d.count + |p| <= BUFFER_LEN && d.needed == Some(d.count + |p|)
    requires ESCAPE_CHAR in p
    ensures !ArrivesAs(d, p, Got(r))
    decreases |p|
  {
    hide Interpret, Bounded, Unbounded;
    var (d1, a) := Step(d, p[0]);
    assert Answers(d, p) == [a] + Answers(d1, p[1..]);
    if |p| == 1 {
      assert Answers(d, p)[0] == a == Quiet;
    } else if ArrivesAs(d, p, Got(r)) {
      assert Answers(d, p)[1..] == Quiets(|p| - 2) + [Got(r)];
      if p[0] == ESCAPE_CHAR {
        TooFewLeft(d1, p[1..], r);
      } else {
        RawBody(d1, p[1..], r);
      }
    }
  }

  /** The length a header of bounded length announces. */
  function Announced(code: u8): Option<nat> {
    match code
    case 0x19 => Some(6)
    case 0x22 => Some(1 + KEY_LEN + MAX_ATTR_LEN)
    case 0x23 => Some(4)
    case 0x24 => Some(4)
    case 0x25 => Some(1 + MAX_INFO_LEN)
    case _ => None
  }

  /** The raw body, whatever padding it carries, reads as `r`. */
  ghost predicate ReadsAs(code: u8, raw: seq<u8>, r: Response) {
    forall buffer: seq<u8> :: |buffer| == BUFFER_LEN && |raw| < BUFFER_LEN && buffer[..1 + |raw|] == [code] + raw ==>
      Interpret(buffer, 1 + |raw|) == Got(r)
  }

  lemma HeaderSet(d: Decoder, code: u8, length: nat) returns (d1: Decoder)
    requires Idle(d) && Announced(code) == Some(length)
    ensures d1 == After(d, [ESCAPE_CHAR, code])
    ensures ValidDecoder(d1) && d1.state == Loading && d1.count == 1 && d1.needed == Some(1 + length)
    ensures d1.buffer[..1] == [code]
    ensures Answers(d, [ESCAPE_CHAR, code]) == [Quiet, Quiet]
  {
    FeedTwo(d, ESCAPE_CHAR, code);
    d1 := After(d, [ESCAPE_CHAR, code]);
  }

  lemma CleanBodyArrives(d1: Decoder, code: u8, raw: seq<u8>, r: Response)
    requires ValidDecoder(d1) && d1.state == Loading && d1.count == 1 && d1.needed == Some(1 + |raw|)
    requires d1.buffer[..1] == [code] && ReadsAs(code, raw, r) && 0 < |raw| < BUFFER_LEN && ESCAPE_CHAR !in raw
    ensures Answers(d1, raw) == Quiets(|raw| - 1) + [Got(r)]
  {
    EscapeIsIdentity(raw);
    var answer := FeedBody(d1, raw, 1 + |raw|);
    var buffer := After(d1, raw).buffer;
    assert buffer[..1 + |raw|] == [code] + raw;
  }

  /** A response whose body is sent without escaping arrives if and only if the body holds no escape byte. */
  lemma UnescapedArrivesIff(d: Decoder, code: u8, raw: seq<u8>, r: Response)
    requires Idle(d) && !IsSimple(r) && Announced(code) == Some(|raw|) && ReadsAs(code, raw, r)
    ensures ArrivesAs(d, [ESCAPE_CHAR, code] + raw, Got(r)) <==> ESCAPE_CHAR !in raw
  {
    var header := [ESCAPE_CHAR, code];
    var d1 := HeaderSet(d, code, |raw|);
    FeedConcat(d, header, raw);
    HeaderThen(Answers(d, header + raw), Answers(d1, raw), Got(r));
    if ESCAPE_CHAR in raw {
      RawBody(d1, raw, r);
    } else {
      CleanBodyArrives(d1, code, raw, r);
    }
  }

  lemma HeaderThen(all: seq<Answer>, body: seq<Answer>, last: Answer)
    requires all == [Quiet, Quiet] + body && body != []
    ensures all == Quiets(|all| - 1) + [last] <==> body == Quiets(|body| - 1) + [last]
  {
    if all == Quiets(|all| - 1) + [last] {
      assert body == all[2..];
    }
  }

  /** Escaped, a body of the announced length always arrives, whatever padding it carries. */
  lemma EscapedArrives(d: Decoder, code: u8, raw: seq<u8>, r: Response)
    requires Idle(d) && Announced(code) == Some(|raw|) && ReadsAs(code, raw, r) && 0 < |raw| < BUFFER_LEN
    ensures ArrivesAs(d, ResponseFrame(code, raw), Got(r))
  {
    var header := [ESCAPE_CHAR, code];
    var d1 := HeaderSet(d, code, |raw|);
    var answer := FeedBody(d1, raw, 1 + |raw|);
    var buffer := After(d1, Escape(raw)).buffer;
    assert buffer[..1 + |raw|] == [code] + raw;
    hide Escape, Answers, After, Interpret;
    AfterHeader(d, header, Escape(raw), Got(r));
  }
}
