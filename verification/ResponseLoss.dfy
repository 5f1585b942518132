/** What a host's decoder makes of a body that was sent without escaping and holds an escape byte, and of bytes that do
    not fit its state. */
module ResponseLoss {
  import opened Bytes
  import opened Framing
  import opened Responses
  import opened ResponseDecoding
  import opened ResponseRoundTrip

  /** What can still be delivered once a packet of `total` bytes has lost one to an escape: responses without a body,
      and, if the packet was longer than a CRC, others put together from fewer than 64 of its bytes. */
  predicate Stray(a: Answer, total: nat) {
    a.Got? ==> IsSimple(a.response) || (total > 5 && (a.response.Info? ==> |a.response.info| < 64))
  }

  /** With `left` bytes to come, the packet under way cannot be completed or is shorter than `total`, and so is any
      packet still to be begun. */
  predicate Short(d: Decoder, left: nat, total: nat) {
    && ValidDecoder(d) && left <= total
    && match d.needed
       case Some(length) => length > d.count + left || (length < total && length in [5, 7, 65])
       case None => d.count + left + (if d.state == Escaped then 1 else 0) <= total
  }

  lemma LoadStaysShort(d: Decoder, ch: u8, left: nat, total: nat)
    requires d.state == Loading && Short(d, 1 + left, total) && total <= 194
    ensures Short(LoadChar(d, ch).0, left, total) && LoadChar(d, ch).0.state == Loading
    ensures Stray(LoadChar(d, ch).1, total)
  {
  }

  lemma HeaderStaysShort(d: Decoder, length: nat, ch: u8, left: nat, total: nat)
    requires d.state == Escaped && Short(d, 1 + left, total) && total <= 194 && length in [4, 6, 64, 193]
    ensures var (d1, answer) := Bounded(d.(state := Loading), length, ch);
      Short(d1, left, total) && Stray(answer, total)
  {
    hide Interpret;
  }

  lemma RangeStaysShort(d: Decoder, ch: u8, left: nat, total: nat)
    requires d.state == Escaped && Short(d, 1 + left, total) && total <= 194
    ensures var (d1, answer) := Unbounded(d.(state := Loading), ch);
      Short(d1, left, total) && Stray(answer, total)
  {
    if d.needed.Some? {
      hide LoadChar;
      LoadStaysShort(d.(state := Loading), ch, left, total);
    }
  }

  lemma EscapedStaysShort(d: Decoder, ch: u8, left: nat, total: nat)
    requires d.state == Escaped && Short(d, 1 + left, total) && total <= 194
    ensures Short(Step(d, ch).0, left, total) && Stray(Step(d, ch).1, total)
  {
    hide LoadChar, Bounded, Unbounded;
    match ch
    case 0xFC => LoadStaysShort(d.(state := Loading), ch, left, total);
    case 0x19 => HeaderStaysShort(d, 6, ch, left, total);
    case 0x20 => RangeStaysShort(d, ch, left, total);
    case 0x21 => RangeStaysShort(d, ch, left, total);
    case 0x22 => HeaderStaysShort(d, 64, ch, left, total);
    case 0x23 => HeaderStaysShort(d, 4, ch, left, total);
    case 0x24 => HeaderStaysShort(d, 4, ch, left, total);
    case 0x25 => HeaderStaysShort(d, 193, ch, left, total);
    case _ =>
  }

  lemma StepStaysShort(d: Decoder, ch: u8, left: nat, total: nat)
    requires Short(d, 1 + left, total) && total <= 194
    ensures Short(Step(d, ch).0, left, total) && Stray(Step(d, ch).1, total)
  {
    hide LoadChar, Bounded, Unbounded;
    if d.state == Escaped {
      EscapedStaysShort(d, ch, left, total);
    } else if ch != ESCAPE_CHAR {
      LoadStaysShort(d, ch, left, total);
    }
  }

  lemma {:induction false} ShortAnswers(d: Decoder, p: seq<u8>, total: nat)
    requires Short(d, |p|, total) && total <= 194
    ensures forall a :: a in Answers(d, p) ==> Stray(a, total)
    decreases |p|
  {
    hide Step, Stray;
    if p != [] {
      StepStaysShort(d, p[0], |p| - 1, total);
      ShortAnswers(Step(d, p[0]).0, p[1..], total);
    }
  }

  /** The body under way holds an escape byte: nothing but strays is delivered. */
  lemma {:induction false} RawBodyLost(d: Decoder, p: seq<u8>, total: nat)
    requires ValidDecoder(d) && d.state == Loading && ESCAPE_CHAR in p && d.count + |p| == total <= 194
    requires d.needed == Some(total)
    ensures forall a :: a in Answers(d, p) ==> Stray(a, total)
    decreases |p|
  {
    var (d1, a) := Step(d, p[0]);
    assert Answers(d, p) == [a] + Answers(d1, p[1..]);
    if p[0] == ESCAPE_CHAR {
      ShortAnswers(d1, p[1..], total);
    } else {
      assert a == Quiet && |p| > 1;
      RawBodyLost(d1, p[1..], total);
    }
  }

  /** Whatever the response was, if its body was sent raw and holds an escape byte it is not what is delivered. */
  lemma UnescapedLost(d: Decoder, code: u8, raw: seq<u8>)
    requires Idle(d) && Announced(code) == Some(|raw|) && ESCAPE_CHAR in raw
    ensures forall a :: a in Answers(d, [ESCAPE_CHAR, code] + raw) ==> Stray(a, 1 + |raw|)
  {
    var header := [ESCAPE_CHAR, code];
    var d1 := HeaderSet(d, code, |raw|);
    FeedConcat(d, header, raw);
    RawBodyLost(d1, raw, 1 + |raw|);
  }

  /** No stray is taken for this response. */
  predicate Distinct(raw: seq<u8>, r: Response) {
    !IsSimple(r) && (|raw| == 4 || (r.Info? && |r.info| >= 64))
  }

  /** A CRC, or an information text of at least 64 bytes, sent without escaping is delivered if and only if its body
      holds no escape byte; then it is all that is delivered. */
  lemma UnescapedDeliveredIff(d: Decoder, code: u8, raw: seq<u8>, r: Response)
    requires Idle(d) && Announced(code) == Some(|raw|) && ReadsAs(code, raw, r) && Distinct(raw, r)
    ensures Got(r) in Answers(d, [ESCAPE_CHAR, code] + raw) <==> ESCAPE_CHAR !in raw
    ensures ArrivesAs(d, [ESCAPE_CHAR, code] + raw, Got(r)) <==> ESCAPE_CHAR !in raw
  {
    hide ReadsAs;
    UnescapedArrivesIff(d, code, raw, r);
    var all := Answers(d, [ESCAPE_CHAR, code] + raw);
    if ESCAPE_CHAR in raw {
      UnescapedLost(d, code, raw);
      assert !Stray(Got(r), 1 + |raw|);
    } else {
      assert all[|all| - 1] == Got(r);
    }
  }

  // ---- response bytes that do not fit the state ------------------------------------------------

  /** The responses without a body, those whose length is known, and those whose length the host must announce. */
  predicate BareCode(ch: u8) {
    0x10 <= ch <= 0x18 || ch == 0x26
  }

  predicate KnownLength(ch: u8) {
    ch == 0x19 || 0x22 <= ch <= 0x25
  }

  predicate RangeCode(ch: u8) {
    ch == 0x20 || ch == 0x21
  }

  /** After an escape: a response without a body is delivered and clears what came before. A range is an error without
      an announced length, any other body with one, and either leaves the decoder as it was; so does an unknown byte, in
      silence. */
  lemma EscapedIs(d: Decoder, ch: u8)
    requires ValidDecoder(d) && d.state == Escaped
    ensures var (d1, a) := Step(d, ch);
      var back := d.(state := Loading);
      if BareCode(ch) then
        a.Got? && Code(a.response) == ch && IsSimple(a.response) && d1 == back.(count := 0, needed := None)
      else if RangeCode(ch) && d.needed.None? then a == Failed(UnsetLength) && d1 == back
      else if KnownLength(ch) && d.needed.Some? then a == Failed(SetLength) && d1 == back
      else !RangeCode(ch) && !KnownLength(ch) && ch != 0xFC ==> a == Quiet && d1 == back
  {
  }

  /** With more bytes than its packet has, a decoder collects in silence. */
  lemma {:induction false} FeedPast(d: Decoder, p: seq<u8>)
    requires ValidDecoder(d) && d.state == Loading && d.needed.Some? && d.count > d.needed.value
    ensures Answers(d, Escape(p)) == Quiets(|Escape(p)|)
    decreases |p|
  {
    if p != [] {
      FeedEscapedByte(d, p[0]);
      FeedConcat(d, EscapeByte(p[0]), Escape(p[1..]));
      FeedPast(LoadChar(d, p[0]).0, p[1..]);
    }
  }

  /** From every state outside an escape a response without a body is delivered and leaves the decoder idle. */
  lemma BareRecovers(d: Decoder, r: Response)
    requires ValidDecoder(d) && d.state == Loading && IsSimple(r)
    ensures Accepted(r) && Answers(d, Wire(r)) == [Quiet, Got(r)] && Idle(After(d, Wire(r)))
  {
    FeedTwo(d, ESCAPE_CHAR, Code(r));
    assert Wire(r) == [ESCAPE_CHAR, Code(r)];
  }

  lemma UnannouncedCollects(d: Decoder, data: seq<u8>) returns (d1: Decoder)
    requires Idle(d) && |data| <= BUFFER_LEN
    ensures d1 == After(d, Wire(ReadRange(data)))
    ensures ValidDecoder(d1) && d1.state == Loading && d1.count == |data| && d1.needed.None?
    ensures Answers(d, Wire(ReadRange(data))) == [Quiet, Failed(UnsetLength)] + Quiets(|Escape(data)|)
  {
    var header := [ESCAPE_CHAR, RES_RRANGE];
    FeedTwo(d, ESCAPE_CHAR, RES_RRANGE);
    FeedPart(d, data);
    FeedConcat(d, header, Escape(data));
    d1 := After(d, Wire(ReadRange(data)));
  }

  lemma NextHeader(d1: Decoder, r: Response) returns (d2: Decoder)
    requires ValidDecoder(d1) && d1.state == Loading && d1.needed.None? && Deliverable(r)
    requires KnownLength(Code(r)) && |Body(r)| < d1.count
    ensures d2 == After(d1, [ESCAPE_CHAR, Code(r)]) && Answers(d1, [ESCAPE_CHAR, Code(r)]) == [Quiet, Quiet]
    ensures ValidDecoder(d2) && d2.state == Loading && d2.needed.Some? && d2.count > d2.needed.value
  {
    FeedTwo(d1, ESCAPE_CHAR, Code(r));
    d2 := After(d1, [ESCAPE_CHAR, Code(r)]);
    assert d2.needed == Some(1 + |Body(r)|);
    if d1.count < BUFFER_LEN {
      assert d2.count == d1.count + 1;
    }
  }

  lemma NextIsLost(d1: Decoder, r: Response)
    requires ValidDecoder(d1) && d1.state == Loading && d1.needed.None? && Deliverable(r)
    requires KnownLength(Code(r)) && |Body(r)| < d1.count < BUFFER_LEN
    ensures Answers(d1, Wire(r)) == Quiets(|Wire(r)|)
  {
    hide Step, Body, Escape, Answers, After;
    var header, body := [ESCAPE_CHAR, Code(r)], Escape(Body(r));
    var d2 := NextHeader(d1, r);
    FeedPast(d2, Body(r));
    FeedConcat(d1, header, body);
    assert Wire(r) == header + body;
    assert [Quiet, Quiet] + Quiets(|body|) == Quiets(2 + |body|);
  }

  /** A range whose length was not announced is an error, and its bytes stay in the decoder: the next shorter response
      with a body is lost as well. */
  lemma UnannouncedSpoils(d: Decoder, data: seq<u8>, r: Response)
    requires Idle(d) && |data| < BUFFER_LEN && Deliverable(r) && KnownLength(Code(r)) && |Body(r)| < |data|
    ensures Answers(d, Wire(ReadRange(data)) + Wire(r))
      == [Quiet, Failed(UnsetLength)] + Quiets(|Escape(data)| + |Wire(r)|)
  {
    var d1 := UnannouncedCollects(d, data);
    NextIsLost(d1, r);
    hide Wire, Answers, After, Body, Escape;
    FeedConcat(d, Wire(ReadRange(data)), Wire(r));
    assert Quiets(|Escape(data)|) + Quiets(|Wire(r)|) == Quiets(|Escape(data)| + |Wire(r)|);
  }

  /** A length announced for a range that does not come makes the next response with a body an error. */
  lemma AnnouncedRefuses(d: Decoder, length: nat, r: Response)
    requires Idle(d) && Deliverable(r) && KnownLength(Code(r))
    ensures var d1 := SetPayloadLen(d, length).0;
      && ValidDecoder(d1) && Answers(d1, Wire(r))[..2] == [Quiet, Failed(SetLength)]
      && !SetPayloadLen(d1, length).1
  {
    var d1, header := SetPayloadLen(d, length).0, [ESCAPE_CHAR, Code(r)];
    FeedTwo(d1, ESCAPE_CHAR, Code(r));
    FeedConcat(d1, header, Escape(Body(r)));
  }

  /** Bytes that come after an announcement but without a header are taken for a packet of that length, and refused when
      it is complete if the first of them is no header. */
  lemma StrayBytesRefused(d: Decoder, p: seq<u8>)
    requires Idle(d) && 2 <= |p| <= BUFFER_LEN && !KnownLength(p[0]) && !RangeCode(p[0])
    ensures var d1 := SetPayloadLen(d, |p| - 1).0;
      && ValidDecoder(d1) && Answers(d1, Escape(p)) == Quiets(|Escape(p)| - 1) + [Failed(UnknownCommand)]
      && Idle(After(d1, Escape(p)))
  {
    hide Escape, Answers, After, Interpret;
    var d1 := SetPayloadLen(d, |p| - 1).0;
    var answer := FeedBody(d1, p, |p|);
    StrayInterpreted(After(d1, Escape(p)).buffer, d1.buffer[..0], p);
  }

  lemma StrayInterpreted(buffer: seq<u8>, before: seq<u8>, p: seq<u8>)
    requires |buffer| == BUFFER_LEN && 1 <= |p| <= BUFFER_LEN && before == [] && buffer[..|p|] == before + p
    requires !KnownLength(p[0]) && !RangeCode(p[0])
    ensures Interpret(buffer, |p|) == Failed(UnknownCommand)
  {
    assert buffer[0] == buffer[..|p|][0];
  }

  // ---- the responses, byte by byte -----------------------------------------------------------

  predicate IsWord(p: seq<u8>, v: u32) {
    |p| == 4 && LittleWord(p, 0) == v
  }

  /** The byte of a response, and what its body holds. */
  predicate Packed(r: Response, code: u8, p: seq<u8>) {
    match r
    case Overflow => code == 0x10 && p == []
    case Pong => code == 0x11 && p == []
    case BadAddress => code == 0x12 && p == []
    case InternalError => code == 0x13 && p == []
    case BadArguments => code == 0x14 && p == []
    case Okay => code == 0x15 && p == []
    case Unknown => code == 0x16 && p == []
    case ExtFlashTimeout => code == 0x17 && p == []
    case ExtFlashPageError => code == 0x18 && p == []
    case CrcRxBuffer(length, crc) => code == 0x19 && |p| == 6 && LittleHalf(p, 0) == length && LittleWord(p, 2) == crc
    case ReadRange(data) => code == 0x20 && p == data
    case ExReadRange(data) => code == 0x21 && p == data
    case GetAttr(key, value) =>
      && code == 0x22 && |p| == 64 && p[0..8] == key && p[8] == |value|
      && forall i :: 0 <= i < 55 ==> p[9 + i] == if i < |value| then value[i] else 0
    case CrcIntFlash(crc) => code == 0x23 && IsWord(p, crc)
    case CrcExtFlash(crc) => code == 0x24 && IsWord(p, crc)
    case Info(info) =>
      && code == 0x25 && |p| == 193 && p[0] == |info|
      && forall i :: 0 <= i < 192 ==> p[1 + i] == if i < |info| then info[i] else 0
    case ChangeBaudFail => code == 0x26 && p == []
  }

  lemma WordOf(v: u32)
    ensures IsWord(LeU32(v), v)
  {
    LeU32RoundTrip(v, [0, 0, 0, 0]);
  }

  lemma HalfAndWord(n: u16, v: u32)
    ensures var p := LeU16(n) + LeU32(v); LittleHalf(p, 0) == n && LittleWord(p, 2) == v
  {
    LeU16RoundTrip(n, [0, 0]);
    WordOf(v);
    var p, word := LeU16(n) + LeU32(v), LeU32(v);
    assert p[2] == word[0] && p[3] == word[1] && p[4] == word[2] && p[5] == word[3];
  }

  /** Every response the encoder accepts has the one layout above. */
  lemma BodyIs(r: Response)
    requires Accepted(r)
    ensures Packed(r, Code(r), Body(r))
  {
    match r
    case CrcRxBuffer(length, crc) => HalfAndWord(length, crc);
    case CrcIntFlash(crc) => WordOf(crc);
    case CrcExtFlash(crc) => WordOf(crc);
    case GetAttr(key, value) => assert Body(r)[0..8] == key;
    case _ =>
  }
}
