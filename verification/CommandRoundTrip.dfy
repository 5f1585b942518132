/** Whatever a `CommandEncoder` sends, one `CommandDecoder` delivers. */
module CommandRoundTrip {
  import opened Bytes
  import opened Framing
  import opened Commands
  import opened CommandDecoding

  /** A decoder fed a whole byte string: the decoder afterwards, and every answer it gave. */
  function After(d: Decoder, bytes: seq<u8>): Decoder
    decreases |bytes|
  {
    if bytes == [] then d else After(Step(d, bytes[0]).0, bytes[1..])
  }

  function Answers(d: Decoder, bytes: seq<u8>): (r: seq<Outcome>)
    ensures |r| == |bytes|
    decreases |bytes|
  {
    if bytes == [] then [] else [Step(d, bytes[0]).1] + Answers(Step(d, bytes[0]).0, bytes[1..])
  }

  function Quiets(n: nat): (s: seq<Outcome>)
    ensures |s| == n
  {
    seq(n, _ => Quiet)
  }

  lemma {:induction false} FeedConcat(d: Decoder, a: seq<u8>, b: seq<u8>)
    ensures After(d, a + b) == After(After(d, a), b)
    ensures Answers(d, a + b) == Answers(d, a) + Answers(After(d, a), b)
    decreases |a|
  {
    if a == [] {
      assert a + b == b;
    } else {
      assert (a + b)[0] == a[0] && (a + b)[1..] == a[1..] + b;
      FeedConcat(Step(d, a[0]).0, a[1..], b);
    }
  }

  lemma FeedTwo(d: Decoder, a: u8, b: u8)
    ensures After(d, [a, b]) == Step(Step(d, a).0, b).0
    ensures Answers(d, [a, b]) == [Step(d, a).1, Step(Step(d, a).0, b).1]
  {
    assert [a, b][1..] == [b] && [b][1..] == [];
    var d1, d2 := Step(d, a).0, Step(Step(d, a).0, b).0;
    assert After(d1, [b]) == After(d2, []) == d2;
    assert Answers(d1, [b]) == [Step(d1, b).1] + Answers(d2, []);
  }

  lemma FeedEscapedByte(loaded: seq<u8>, b: u8)
    requires |loaded| < BUFFER_LEN
    ensures After(Decoder(Loading, loaded), EscapeByte(b)) == Decoder(Loading, loaded + [b])
    ensures Answers(Decoder(Loading, loaded), EscapeByte(b)) == Quiets(|EscapeByte(b)|)
  {
    var d := Decoder(Loading, loaded);
    if b == ESCAPE_CHAR {
      FeedTwo(d, b, b);
    } else {
      assert [b][1..] == [] && After(d, [b]) == After(Step(d, b).0, []);
    }
  }

  /** Escaping is undone byte by byte, without a word from the decoder. */
  lemma {:induction false} FeedEscaped(loaded: seq<u8>, p: seq<u8>)
    requires |loaded| + |p| <= BUFFER_LEN
    ensures After(Decoder(Loading, loaded), Escape(p)) == Decoder(Loading, loaded + p)
    ensures Answers(Decoder(Loading, loaded), Escape(p)) == Quiets(|Escape(p)|)
    decreases |p|
  {
    if p == [] {
      assert loaded + p == loaded;
    } else {
      FeedEscapedByte(loaded, p[0]);
      FeedConcat(Decoder(Loading, loaded), EscapeByte(p[0]), Escape(p[1..]));
      FeedEscaped(loaded + [p[0]], p[1..]);
      assert loaded + [p[0]] + p[1..] == loaded + p;
    }
  }

  // ---- one command ----------------------------------------------------------

  /** The decoder's table inverts the encoder's: every well-formed command is read back from its packet. */
  lemma DispatchInverts(c: Command)
    requires WellFormed(c)
    ensures Dispatch(Code(c), Payload(c)) == Got(c)
  {
    var p := Payload(c);
    match c
    case WritePage(a, data) => LeU32RoundTrip(a, [0, 0, 0, 0]); assert p[0..4] == LeU32(a) && p[4..] == data;
    case WriteExPage(a, data) => LeU32RoundTrip(a, [0, 0, 0, 0]); assert p[0..4] == LeU32(a) && p[4..] == data;
    case ReadRange(a, n) => Address(a, p); LeU16RoundTrip(n, [0, 0]); assert p[4..6] == LeU16(n);
    case ExReadRange(a, n) => Address(a, p); LeU16RoundTrip(n, [0, 0]); assert p[4..6] == LeU16(n);
    case CrcIntFlash(a, n) => Address(a, p); LeU32RoundTrip(n, [0, 0, 0, 0]); assert p[4..8] == LeU32(n);
    case CrcExtFlash(a, n) => Address(a, p); LeU32RoundTrip(n, [0, 0, 0, 0]); assert p[4..8] == LeU32(n);
    case WriteFlashUserPages(a, n) => Address(a, p); LeU32RoundTrip(n, [0, 0, 0, 0]); assert p[4..8] == LeU32(n);
    case ErasePage(a) => Address(a, p);
    case EraseExBlock(a) => Address(a, p);
    case EraseExPage(a) => Address(a, p);
    case SetStartAddress(a) => Address(a, p);
    case ChangeBaud(mode, baud) => LeU32RoundTrip(baud, [0, 0, 0, 0]); assert p[1..5] == LeU32(baud);
    case SetAttr(index, key, value) => assert p[1..9] == key && p[10..] == value;
    case _ =>
  }

  lemma Address(a: u32, p: seq<u8>)
    requires |p| >= 4 && p[0..4] == LeU32(a)
    ensures ReadU32(p[0..4]) == a
  {
    LeU32RoundTrip(a, [0, 0, 0, 0]);
  }

  /** The longest packet an accepted command has is a page write. */
  lemma PacketFits(c: Command)
    requires Accepted(c)
    ensures WellFormed(c) && |Payload(c)| <= 516 <= BUFFER_LEN
  {
  }

  lemma FeedTrailer(p: seq<u8>, code: u8, c: Command)
    requires code != ESCAPE_CHAR && Dispatch(code, p) == Got(c)
    ensures After(Decoder(Loading, p), [ESCAPE_CHAR, code]) == START
    ensures Answers(Decoder(Loading, p), [ESCAPE_CHAR, code]) == [Quiet, Got(c)]
  {
    FeedTwo(Decoder(Loading, p), ESCAPE_CHAR, code);
  }

  lemma FeedFrame(p: seq<u8>, code: u8, c: Command)
    requires code != ESCAPE_CHAR && |p| <= BUFFER_LEN && Dispatch(code, p) == Got(c)
    ensures After(START, CommandFrame(p, code)) == START
    ensures Answers(START, CommandFrame(p, code)) == Quiets(|CommandFrame(p, code)| - 1) + [Got(c)]
  {
    FeedEscaped([], p);
    assert [] + p == p;
    FeedConcat(START, Escape(p), [ESCAPE_CHAR, code]);
    FeedTrailer(p, code, c);
  }

  /** One command: silence until its last byte, then the command, and an empty decoder. */
  lemma FeedWire(c: Command)
    requires WellFormed(c) && |Payload(c)| <= BUFFER_LEN
    ensures After(START, Wire(c)) == START
    ensures Answers(START, Wire(c)) == Quiets(|Wire(c)| - 1) + [Got(c)]
  {
    DispatchInverts(c);
    FeedFrame(Payload(c), Code(c), c);
  }

  lemma FeedBoth(first: seq<u8>, second: seq<u8>)
    requires After(START, first) == START && After(START, second) == START
    ensures After(START, first + second) == START
    ensures Answers(START, first + second) == Answers(START, first) + Answers(START, second)
  {
    FeedConcat(START, first, second);
  }

  predicate AllAccepted(cs: seq<Command>) {
    forall c :: c in cs ==> Accepted(c) && WellFormed(c)
  }

  function WireAll(cs: seq<Command>): seq<u8>
    requires AllAccepted(cs)
  {
    if cs == [] then [] else Wire(cs[0]) + WireAll(cs[1..])
  }

  /** Silence except on the last byte of each command, where that command is delivered. */
  function Deliveries(cs: seq<Command>): seq<Outcome>
    requires AllAccepted(cs)
  {
    if cs == [] then [] else Quiets(|Wire(cs[0])| - 1) + [Got(cs[0])] + Deliveries(cs[1..])
  }

  /** Every sequence of accepted commands, encoded and concatenated, is decoded into exactly that
      sequence, with `Ok(None)` on every other byte, whatever the payloads contain. */
  lemma {:induction false} StreamRoundTrip(cs: seq<Command>)
    requires AllAccepted(cs)
    ensures After(START, WireAll(cs)) == START
    ensures Answers(START, WireAll(cs)) == Deliveries(cs)
    decreases |cs|
  {
    if cs != [] {
      var c, rest := cs[0], cs[1..];
      PacketFits(c);
      assert AllAccepted(rest) && WireAll(cs) == Wire(c) + WireAll(rest);
      assert Deliveries(cs) == Quiets(|Wire(c)| - 1) + [Got(c)] + Deliveries(rest);
      hide *;
      FeedWire(c);
      StreamRoundTrip(rest);
      FeedBoth(Wire(c), WireAll(rest));
    }
  }

  /** Two Reset commands bring a decoder in any state back to the start, so the stream that follows is decoded. */
  lemma ResetsResynchronise(d: Decoder, cs: seq<Command>)
    requires ValidDecoder(d) && AllAccepted(cs)
    ensures var resets := Wire(Reset) + Wire(Reset);
      && After(d, resets + WireAll(cs)) == START
      && Answers(d, resets + WireAll(cs))[|resets|..] == Deliveries(cs)
  {
    var resets := Wire(Reset) + Wire(Reset);
    assert Wire(Reset) == [ESCAPE_CHAR, CMD_RESET];
    FeedConcat(d, Wire(Reset), Wire(Reset));
    FeedTwo(d, ESCAPE_CHAR, CMD_RESET);
    FeedTwo(After(d, Wire(Reset)), ESCAPE_CHAR, CMD_RESET);
    FeedConcat(d, resets, WireAll(cs));
    StreamRoundTrip(cs);
  }

  /** Conversely, what a decoder delivers is what was packed: encoding it again gives the same packet
      (or it is one of the commands without arguments, which ignore theirs). */
  lemma DeliveredReencodes(code: u8, p: seq<u8>)
    requires Dispatch(code, p).Got?
    ensures var c := Dispatch(code, p).command;
      WellFormed(c) && Code(c) == code && (Payload(c) == p || Payload(c) == [])
  {
    match code {
      case 0x13 => assert p == [p[0]] + p[1..9] + [p[9]] + p[10..];
      case 0x21 => LeU32RoundTrip(0, p[1..5]); assert p == [p[0]] + p[1..5];
      case 0x11 => LeU32RoundTrip(0, p[0..4]); LeU16RoundTrip(0, p[4..6]); assert p == p[0..4] + p[4..6];
      case 0x12 => LeU32RoundTrip(0, p[0..4]); LeU16RoundTrip(0, p[4..6]); assert p == p[0..4] + p[4..6];
      case 0x15 => LeU32RoundTrip(0, p[0..4]); LeU32RoundTrip(0, p[4..8]); assert p == p[0..4] + p[4..8];
      case 0x16 => LeU32RoundTrip(0, p[0..4]); LeU32RoundTrip(0, p[4..8]); assert p == p[0..4] + p[4..8];
      case 0x20 => LeU32RoundTrip(0, p[0..4]); LeU32RoundTrip(0, p[4..8]); assert p == p[0..4] + p[4..8];
      case 0x14 => assert p == [p[0]];
      case _ =>
        if |p| >= 4 {
          LeU32RoundTrip(0, p[0..4]);
          assert p == p[0..4] + p[4..];
        }
    }
  }

  /** The only packet that makes `receive` index out of range is a page write of fewer than four bytes. */
  lemma PanicsOnlyOnShortPageWrite(d: Decoder, ch: u8)
    ensures Step(d, ch).1.Panicked? <==> d.state == Escaped && ch == CMD_WPAGE && |d.loaded| < 4
  {
  }

  // ---- packets that are not commands --------------------------------------------

  /** How many bytes precede a command byte, where that is a fixed number. */
  function Arguments(code: u8): Option<nat> {
    match code
    case 0x06 => Some(4)
    case 0x08 => Some(4)
    case 0x09 => Some(260)
    case 0x11 => Some(6)
    case 0x12 => Some(6)
    case 0x14 => Some(1)
    case 0x15 => Some(8)
    case 0x16 => Some(8)
    case 0x17 => Some(4)
    case 0x20 => Some(8)
    case 0x21 => Some(5)
    case 0x23 => Some(4)
    case _ => None
  }

  /** The commands that ignore what precedes them. */
  predicate IgnoresPacket(code: u8) {
    code in {0x01, 0x03, 0x04, 0x05, 0x10, 0x18, 0x19, 0x22}
  }

  predicate Known(code: u8) {
    Arguments(code).Some? || IgnoresPacket(code) || code == 0x07 || code == 0x13
  }

  /** The packet does not have the length its command byte demands, or names no mode of a change of rate. */
  predicate BadPacket(code: u8, p: seq<u8>) {
    if code == 0x13 then |p| < 10 || |p| != 10 + p[9] as int
    else Arguments(code).Some? && (|p| != Arguments(code).value || (code == 0x21 && p[0] != 0x01 && p[0] != 0x02))
  }

  /** Every packet and every command byte: a bad packet is refused, an unknown byte passed over in silence, and
      anything else is the one command that packs to it, or ignores it. */
  lemma DispatchIs(code: u8, p: seq<u8>)
    ensures Dispatch(code, p).Failed? <==> BadPacket(code, p)
    ensures Dispatch(code, p).Failed? ==> Dispatch(code, p) == Failed(BadArguments)
    ensures Dispatch(code, p).Quiet? <==> !Known(code)
    ensures Dispatch(code, p).Panicked? <==> code == 0x07 && |p| < 4
    ensures Dispatch(code, p).Got? ==>
      var c := Dispatch(code, p).command;
      WellFormed(c) && Code(c) == code && Payload(c) == if IgnoresPacket(code) then [] else p
  {
    hide LeU32, LeU16, ReadU32, ReadU16;
    if Dispatch(code, p).Got? {
      DeliveredReencodes(code, p);
    }
  }

  /** A packet with an unknown command byte stays in the decoder: with it in front, the next command whose length is
      fixed is refused. */
  lemma UnknownSpoils(p: seq<u8>, code: u8, c: Command)
    requires !Known(code) && code != ESCAPE_CHAR && p != [] && WellFormed(c) && Arguments(Code(c)).Some?
    requires |p| + |Payload(c)| <= BUFFER_LEN
    ensures Answers(START, CommandFrame(p, code)) == Quiets(|CommandFrame(p, code)|)
    ensures Answers(START, CommandFrame(p, code) + Wire(c))
      == Quiets(|CommandFrame(p, code) + Wire(c)| - 1) + [Failed(BadArguments)]
  {
    hide *;
    var first := CommandFrame(p, code);
    Nothing(p);
    DispatchIs(code, p);
    FrameEnds([], p, code);
    SpoiltFails(p, c);
    FeedConcat(START, first, Wire(c));
    JoinQuiets(Answers(START, first), Answers(After(START, first), Wire(c)), Failed(BadArguments));
  }

  lemma SpoiltFails(p: seq<u8>, c: Command)
    requires p != [] && WellFormed(c) && Arguments(Code(c)).Some? && |p| + |Payload(c)| <= BUFFER_LEN
    ensures |Wire(c)| >= 2
    ensures Answers(Decoder(Loading, p), Wire(c)) == Quiets(|Wire(c)| - 1) + [Failed(BadArguments)]
  {
    hide *;
    var q := Payload(c);
    FixedLength(c);
    WireIs(c);
    DispatchIs(Code(c), p + q);
    LongerIsBad(Code(c), p, q);
    FrameEnds(p, q, Code(c));
  }

  lemma FixedLength(c: Command)
    requires WellFormed(c) && Arguments(Code(c)).Some?
    ensures |Payload(c)| == Arguments(Code(c)).value && Code(c) != ESCAPE_CHAR
  {
  }

  lemma LongerIsBad(code: u8, p: seq<u8>, q: seq<u8>)
    requires Arguments(code) == Some(|q|) && p != []
    ensures BadPacket(code, p + q)
  {
  }

  lemma WireIs(c: Command)
    requires WellFormed(c)
    ensures Wire(c) == CommandFrame(Payload(c), Code(c)) && |Wire(c)| >= 2
  {
  }

  lemma Nothing(p: seq<u8>)
    ensures [] + p == p && START == Decoder(Loading, [])
  {
  }

  lemma JoinQuiets(a: seq<Outcome>, b: seq<Outcome>, last: Outcome)
    requires a == Quiets(|a|) && b != [] && b == Quiets(|b| - 1) + [last]
    ensures a + b == Quiets(|a + b| - 1) + [last]
  {
  }

  lemma FrameEnds(loaded: seq<u8>, p: seq<u8>, code: u8)
    requires code != ESCAPE_CHAR && |loaded| + |p| <= BUFFER_LEN
    ensures var (d, outcome) := (Decoder(Loading, loaded), Dispatch(code, loaded + p));
      && Answers(d, CommandFrame(p, code)) == Quiets(|CommandFrame(p, code)| - 1) + [outcome]
      && (outcome.Quiet? ==>
            && After(d, CommandFrame(p, code)) == Decoder(Loading, loaded + p)
            && Answers(d, CommandFrame(p, code)) == Quiets(|CommandFrame(p, code)|))
  {
    hide Dispatch, Escape;
    var d := Decoder(Loading, loaded);
    FeedEscaped(loaded, p);
    FeedConcat(d, Escape(p), [ESCAPE_CHAR, code]);
    FeedTwo(Decoder(Loading, loaded + p), ESCAPE_CHAR, code);
  }

  /** A packet longer than the decoder's buffer is cut at 4224 bytes, and what is left is dispatched as if it were
      whole. */
  lemma {:induction false} FeedLong(loaded: seq<u8>, p: seq<u8>)
    requires |loaded| <= 4224
    ensures After(Decoder(Loading, loaded), Escape(p)) == Decoder(Loading, (loaded + p)[..Min(|loaded + p|, 4224)])
    ensures Answers(Decoder(Loading, loaded), Escape(p)) == Quiets(|Escape(p)|)
    decreases |p|
  {
    if p == [] {
      assert loaded + p == loaded && loaded[..|loaded|] == loaded;
    } else {
      var d, more := Decoder(Loading, loaded), Load(loaded, p[0]);
      OneMore(loaded, p[0]);
      FeedConcat(d, EscapeByte(p[0]), Escape(p[1..]));
      FeedLong(more, p[1..]);
      CutAgain(loaded, p);
      assert Quiets(|EscapeByte(p[0])|) + Quiets(|Escape(p[1..])|) == Quiets(|Escape(p)|);
    }
  }

  lemma OneMore(loaded: seq<u8>, b: u8)
    ensures After(Decoder(Loading, loaded), EscapeByte(b)) == Decoder(Loading, Load(loaded, b))
    ensures Answers(Decoder(Loading, loaded), EscapeByte(b)) == Quiets(|EscapeByte(b)|)
  {
    var d := Decoder(Loading, loaded);
    if b == ESCAPE_CHAR {
      FeedTwo(d, b, b);
    } else {
      assert [b][1..] == [] && After(d, [b]) == After(Step(d, b).0, []);
    }
  }

  lemma CutAgain(loaded: seq<u8>, p: seq<u8>)
    requires |loaded| <= 4224 && p != []
    ensures var more := Load(loaded, p[0]);
      |more| <= 4224
      && (more + p[1..])[..Min(|more + p[1..]|, 4224)] == (loaded + p)[..Min(|loaded + p|, 4224)]
  {
    if |loaded| < 4224 {
      assert loaded + [p[0]] + p[1..] == loaded + p;
    }
  }

  // ---- the packets, byte by byte -------------------------------------------------

  predicate IsWord(p: seq<u8>, v: u32) {
    |p| == 4 && LittleWord(p, 0) == v
  }

  predicate IsTwoWords(p: seq<u8>, v: u32, w: u32) {
    |p| == 8 && LittleWord(p, 0) == v && LittleWord(p, 4) == w
  }

  predicate IsRange(p: seq<u8>, v: u32, n: u16) {
    |p| == 6 && LittleWord(p, 0) == v && LittleHalf(p, 4) == n
  }

  predicate IsPage(p: seq<u8>, v: u32, data: seq<u8>) {
    |p| == 4 + |data| && LittleWord(p, 0) == v && p[4..] == data
  }

  /** The command byte of a command, and what its packet holds. */
  predicate Packed(c: Command, code: u8, p: seq<u8>) {
    match c
    case Ping => code == 0x01 && p == []
    case Info => code == 0x03 && p == []
    case Id => code == 0x04 && p == []
    case Reset => code == 0x05 && p == []
    case ErasePage(address) => code == 0x06 && IsWord(p, address)
    case WritePage(address, data) => code == 0x07 && IsPage(p, address, data)
    case EraseExBlock(address) => code == 0x08 && IsWord(p, address)
    case WriteExPage(address, data) => code == 0x09 && IsPage(p, address, data)
    case CrcRxBuffer => code == 0x10 && p == []
    case ReadRange(address, length) => code == 0x11 && IsRange(p, address, length)
    case ExReadRange(address, length) => code == 0x12 && IsRange(p, address, length)
    case SetAttr(index, key, value) =>
      && code == 0x13 && |p| == 10 + |value| && |key| == 8
      && p[0] == index && p[1..9] == key && p[9] == |value| && p[10..] == value
    case GetAttr(index) => code == 0x14 && p == [index]
    case CrcIntFlash(address, length) => code == 0x15 && IsTwoWords(p, address, length)
    case CrcExtFlash(address, length) => code == 0x16 && IsTwoWords(p, address, length)
    case EraseExPage(address) => code == 0x17 && IsWord(p, address)
    case ExtFlashInit => code == 0x18 && p == []
    case ClockOut => code == 0x19 && p == []
    case WriteFlashUserPages(page1, page2) => code == 0x20 && IsTwoWords(p, page1, page2)
    case ChangeBaud(mode, baud) =>
      code == 0x21 && |p| == 5 && p[0] == (if mode == Set then 0x01 else 0x02) && LittleWord(p, 1) == baud
    case Exit => code == 0x22 && p == []
    case SetStartAddress(address) => code == 0x23 && IsWord(p, address)
  }

  lemma WordOf(v: u32)
    ensures IsWord(LeU32(v), v)
  {
    LeU32RoundTrip(v, [0, 0, 0, 0]);
  }

  lemma PutWord(v: u32, rest: seq<u8>)
    ensures LittleWord(LeU32(v) + rest, 0) == v && (LeU32(v) + rest)[4..] == rest
  {
    WordOf(v);
    hide LeU32;
    var word, p := LeU32(v), LeU32(v) + rest;
    assert p[0] == word[0] && p[1] == word[1] && p[2] == word[2] && p[3] == word[3];
  }

  lemma AfterWord(v: u32, rest: seq<u8>)
    ensures |rest| >= 2 ==> LittleHalf(LeU32(v) + rest, 4) == LittleHalf(rest, 0)
    ensures |rest| >= 4 ==> LittleWord(LeU32(v) + rest, 4) == LittleWord(rest, 0)
  {
    hide LeU32;
    var p := LeU32(v) + rest;
    if |rest| >= 2 {
      assert p[4] == rest[0] && p[5] == rest[1];
    }
    if |rest| >= 4 {
      assert p[6] == rest[2] && p[7] == rest[3];
    }
  }

  /** Every well-formed command has the one layout above: with `DispatchIs`, the decoder reads those bytes and no
      others. */
  lemma PayloadIs(c: Command)
    requires WellFormed(c)
    ensures Packed(c, Code(c), Payload(c))
  {
    hide LeU32, LittleWord, LittleHalf;
    match c
    case WritePage(a, data) => PutWord(a, data);
    case WriteExPage(a, data) => PutWord(a, data);
    case ReadRange(a, n) => RangeIs(a, n);
    case ExReadRange(a, n) => RangeIs(a, n);
    case CrcIntFlash(a, n) => TwoWordsAre(a, n);
    case CrcExtFlash(a, n) => TwoWordsAre(a, n);
    case WriteFlashUserPages(a, n) => TwoWordsAre(a, n);
    case ErasePage(a) => WordOf(a);
    case EraseExBlock(a) => WordOf(a);
    case EraseExPage(a) => WordOf(a);
    case SetStartAddress(a) => WordOf(a);
    case ChangeBaud(mode, baud) => RateIs(ModeByte(mode), baud);
    case SetAttr(index, key, value) => assert Payload(c)[1..9] == key && Payload(c)[10..] == value;
    case _ =>
  }

  lemma RangeIs(a: u32, n: u16)
    ensures IsRange(LeU32(a) + LeU16(n), a, n)
  {
    PutWord(a, LeU16(n));
    AfterWord(a, LeU16(n));
    LeU16RoundTrip(n, [0, 0]);
  }

  lemma TwoWordsAre(a: u32, n: u32)
    ensures IsTwoWords(LeU32(a) + LeU32(n), a, n)
  {
    PutWord(a, LeU32(n));
    AfterWord(a, LeU32(n));
    WordOf(n);
  }

  lemma RateIs(mode: u8, baud: u32)
    ensures LittleWord([mode] + LeU32(baud), 1) == baud
  {
    WordOf(baud);
    hide LeU32;
    var word, p := LeU32(baud), [mode] + LeU32(baud);
    assert p[1] == word[0] && p[2] == word[1] && p[3] == word[2] && p[4] == word[3];
  }
}
