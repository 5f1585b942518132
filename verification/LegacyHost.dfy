/** What a host reads from the polling bootloader's replies. */
module LegacyHost {
  import opened Bytes
  import opened Framing
  import opened R = Responses
  import opened LegacyMachine
  import opened LegacyRuns
  import opened LegacyBaud
  import opened LegacyService
  import C = Commands
  import Crc
  import RD = ResponseDecoding
  import RT = ResponseRoundTrip

  lemma RangeReplyIs(env: Env, flash: seq<u8>, address: u32, length: u16)
    requires ValidEnv(env) && |flash| == FLASH_SIZE && length <= 4095 && address + length <= FLASH_SIZE
    ensures ReplyTo(env, flash, C.ReadRange(address, length)) == Wire(R.ReadRange(flash[address..address + length]))
  {
    hide BytesAt, Wire;
  }

  /** With the length announced, a range that is accepted and not empty arrives as exactly the bytes asked for. */
  lemma RangeArrives(d: RD.Decoder, env: Env, flash: seq<u8>, address: u32, length: u16)
    requires RT.Idle(d) && ValidEnv(env) && |flash| == FLASH_SIZE
    requires 0 < length <= 4095 && address + length <= FLASH_SIZE
    ensures var d1 := RD.SetPayloadLen(d, length).0;
      RD.ValidDecoder(d1) && RT.ArrivesAs(d1, ReplyTo(env, flash, C.ReadRange(address, length)),
        RD.Got(R.ReadRange(flash[address..address + length])))
  {
    hide RT.Answers, RT.After, Escape, ReplyTo;
    RangeReplyIs(env, flash, address, length);
    RT.FeedWire(d, R.ReadRange(flash[address..address + length]));
  }

  lemma CrcReplyIs(env: Env, flash: seq<u8>, address: u32, length: u32, crc: u32)
    requires ValidEnv(env) && |flash| == FLASH_SIZE && !BadCrcRange(address, length)
    requires crc == Crc.Crc32(0, flash[address..address + length]) as int
    ensures ReplyTo(env, flash, C.CrcIntFlash(address, length)) == Wire(R.CrcIntFlash(crc))
  {
    hide Wire, Crc.Crc32;
  }

  /** This bootloader does escape its CRCs: they always arrive. */
  lemma CrcArrives(d: RD.Decoder, env: Env, flash: seq<u8>, address: u32, length: u32)
    requires RT.Idle(d) && ValidEnv(env) && |flash| == FLASH_SIZE && !BadCrcRange(address, length)
    ensures RT.ArrivesAs(d, ReplyTo(env, flash, C.CrcIntFlash(address, length)),
      RD.Got(R.CrcIntFlash(Crc.Crc32(0, flash[address..address + length]) as int)))
  {
    var crc: u32 := Crc.Crc32(0, flash[address..address + length]) as int;
    hide *;
    CrcReplyIs(env, flash, address, length, crc);
    CrcDelivered(d, crc);
  }

  lemma CrcDelivered(d: RD.Decoder, crc: u32)
    requires RT.Idle(d)
    ensures RT.ArrivesAs(d, Wire(R.CrcIntFlash(crc)), RD.Got(R.CrcIntFlash(crc)))
  {
    hide RT.Answers, Escape;
    RT.FeedWire(d, R.CrcIntFlash(crc));
  }

  // ---- attributes ------------------------------------------------------------------------

  /** The slot starts with the key, the length and the value; what follows is whatever it held before. */
  predicate Holds(flash: seq<u8>, index: nat, key: seq<u8>, value: seq<u8>)
    requires |flash| == FLASH_SIZE && index < 16 && |key| == 8 && |value| < 56
  {
    var slot := flash[0x600 + 64 * index..0x640 + 64 * index];
    slot[0..8] == key && slot[8] == |value| && slot[9..9 + |value|] == value
  }

  lemma HeldData(flash: seq<u8>, index: nat, key: seq<u8>, value: seq<u8>)
    requires |flash| == FLASH_SIZE && index < 16 && |key| == 8 && |value| < 56
    ensures var at := AttributeAt(index);
      Holds(flash, index, key, value) <==> flash[at..at + 9 + |value|] == AttributeData(key, value)
  {
    var at, n := AttributeAt(index), |value|;
    var held := flash[at..at + 9 + n];
    SliceOfSlice(flash, at, 64, 0, 8);
    SliceOfSlice(flash, at, 9 + n, 0, 8);
    SliceOfSlice(flash, at, 64, 9, n);
    SliceOfSlice(flash, at, 9 + n, 9, n);
    hide AttributeData;
    DataIs(held, key, value);
  }

  lemma DataIs(held: seq<u8>, key: seq<u8>, value: seq<u8>)
    requires |key| == 8 && |value| < 56 && |held| == 9 + |value|
    ensures held == AttributeData(key, value)
      <==> held[0..8] == key && held[8] == |value| && held[9..9 + |value|] == value
  {
    assert held == held[0..8] + [held[8]] + held[9..9 + |value|];
    var data := AttributeData(key, value);
    assert data[0..8] == key && data[9..9 + |value|] == value;
  }

  lemma SlotReads(slot: seq<u8>, key: seq<u8>, value: seq<u8>)
    requires |slot| == SLOT && |key| == 8 && |value| < 56 && slot[..9 + |value|] == AttributeData(key, value)
    ensures RT.ReadsAs(RES_GATTR, slot, R.GetAttr(key, value))
  {
    var n := |value|;
    var data := AttributeData(key, value);
    assert slot[0..8] == data[0..8] == key && slot[8] == data[8] == n && slot[9..9 + n] == data[9..9 + n] == value;
    forall buffer: seq<u8> | |buffer| == RD.BUFFER_LEN && buffer[..1 + |slot|] == [RES_GATTR] + slot
      ensures RD.Interpret(buffer, 1 + |slot|) == RD.Got(R.GetAttr(key, value))
    {
      RT.FirstByte(buffer, RES_GATTR, slot);
      SliceOfSlice(buffer, 1, SLOT, 0, 8);
      SliceOfSlice(buffer, 1, SLOT, 9, n);
      assert buffer[9] == buffer[1..65][8];
    }
  }

  /** A slot that holds an attribute is answered so that the host's decoder delivers it. */
  lemma AttributeArrives(
      d: RD.Decoder, env: Env, flash: seq<u8>, index: u8, key: seq<u8>, value: seq<u8>)
    requires RT.Idle(d) && ValidEnv(env) && |flash| == FLASH_SIZE && index < 16 && |key| == 8 && |value| < 56
    requires Holds(flash, index, key, value)
    ensures RT.ArrivesAs(d, ReplyTo(env, flash, C.GetAttr(index)), RD.Got(R.GetAttr(key, value)))
  {
    HeldData(flash, index, key, value);
    var slot := flash[AttributeAt(index)..AttributeAt(index) + SLOT];
    assert slot[..9 + |value|] == flash[AttributeAt(index)..AttributeAt(index) + 9 + |value|];
    SlotReads(slot, key, value);
    hide RT.ReadsAs, RT.ArrivesAs, Escape;
    RT.EscapedArrives(d, RES_GATTR, slot, R.GetAttr(key, value));
  }

  /** The command does not store this attribute. Page writes and erases never reach the attributes. */
  predicate Spares(c: C.Command, index: nat) {
    c.SetAttr? && !BadAttribute(c.index, c.value) ==> c.index != index
  }

  lemma SlotKept(flash: seq<u8>, c: C.Command, index: nat)
    requires |flash| == FLASH_SIZE && C.WellFormed(c) && index < 16 && Spares(c, index)
    ensures var at := AttributeAt(index); FlashAfter(flash, c)[at..at + SLOT] == flash[at..at + SLOT]
  {
  }

  lemma SetHolds(flash: seq<u8>, c: C.Command)
    requires |flash| == FLASH_SIZE && C.WellFormed(c) && c.SetAttr? && !BadAttribute(c.index, c.value)
    ensures Holds(FlashAfter(flash, c), c.index, c.key, c.value)
    ensures var at := 0x600 + 64 * (c.index as int);
      forall a :: 0 <= a < FLASH_SIZE && !(at <= a < at + 9 + |c.value|) ==> FlashAfter(flash, c)[a] == flash[a]
  {
    HeldData(FlashAfter(flash, c), c.index, c.key, c.value);
  }

  predicate AllSpare(jobs: seq<Job>, index: nat) {
    forall i :: 0 <= i < |jobs| ==> Spares(jobs[i].command, index)
  }

  lemma {:induction false} HeldThrough(
      env: Env, flash: seq<u8>, jobs: seq<Job>, index: nat, key: seq<u8>, value: seq<u8>)
    requires ValidEnv(env) && |flash| == FLASH_SIZE && ValidSession(env, flash, jobs) && AllSpare(jobs, index)
    requires index < 16 && |key| == 8 && |value| < 56 && Holds(flash, index, key, value)
    ensures Holds(FlashAfterAll(env, flash, jobs), index, key, value)
    decreases |jobs|
  {
    hide Holds, FlashAfter, ValidJob, Spares;
    if jobs != [] {
      assert C.WellFormed(jobs[0].command) by { JobWellFormed(env, flash, jobs[0]); }
      HoldsKept(flash, jobs[0].command, index, key, value);
      HeldThrough(env, FlashAfter(flash, jobs[0].command), jobs[1..], index, key, value);
    }
  }

  lemma JobWellFormed(env: Env, flash: seq<u8>, j: Job)
    requires ValidEnv(env) && |flash| == FLASH_SIZE && ValidJob(env, flash, j)
    ensures C.WellFormed(j.command)
  {
  }

  lemma HoldsKept(flash: seq<u8>, c: C.Command, index: nat, key: seq<u8>, value: seq<u8>)
    requires |flash| == FLASH_SIZE && C.WellFormed(c) && Spares(c, index)
    requires index < 16 && |key| == 8 && |value| < 56 && Holds(flash, index, key, value)
    ensures Holds(FlashAfter(flash, c), index, key, value)
  {
    SlotKept(flash, c, index);
    HeldData(flash, index, key, value);
    HeldData(FlashAfter(flash, c), index, key, value);
    hide Holds;
    var next, at, n := FlashAfter(flash, c), AttributeAt(index), 9 + |value|;
    hide FlashAfter;
    assert next[at..at + n] == next[at..at + SLOT][..n] && flash[at..at + n] == flash[at..at + SLOT][..n];
  }

  /** The last attribute stored under an index is the one a host reads back, whatever else was done in between. */
  lemma LastAttributeArrives(
      d: RD.Decoder, env: Env, flash: seq<u8>, first: C.Command, others: seq<Job>)
    requires RT.Idle(d) && ValidEnv(env) && |flash| == FLASH_SIZE && C.WellFormed(first)
    requires first.SetAttr? && !BadAttribute(first.index, first.value)
    requires ValidSession(env, FlashAfter(flash, first), others) && AllSpare(others, first.index)
    ensures RT.ArrivesAs(d,
      ReplyTo(env, FlashAfterAll(env, FlashAfter(flash, first), others), C.GetAttr(first.index)),
      RD.Got(R.GetAttr(first.key, first.value)))
  {
    hide Holds, FlashAfter, RT.ArrivesAs, RT.Idle, ReplyTo;
    SetHolds(flash, first);
    HeldThrough(env, FlashAfter(flash, first), others, first.index, first.key, first.value);
    AttributeArrives(d, env, FlashAfterAll(env, FlashAfter(flash, first), others), first.index, first.key, first.value);
  }

  // ---- through the polling loop ------------------------------------------------------------------

  lemma {:induction false} SessionSplits(env: Env, flash: seq<u8>, jobs: seq<Job>, last: Job)
    requires ValidEnv(env) && |flash| == FLASH_SIZE && ValidSession(env, flash, jobs + [last])
    ensures ValidSession(env, flash, jobs) && ValidJob(env, FlashAfterAll(env, flash, jobs), last)
    ensures Replies(env, flash, jobs + [last])
      == Replies(env, flash, jobs) + ReplyTo(env, FlashAfterAll(env, flash, jobs), last.command)
    decreases |jobs|
  {
    hide ValidJob, ReplyTo, FlashAfter;
    var all := jobs + [last];
    if jobs == [] {
      assert all == [last] && all[1..] == [];
      assert Replies(env, flash, [last]) == ReplyTo(env, flash, last.command) + [];
    } else {
      assert all[0] == jobs[0] && all[1..] == jobs[1..] + [last];
      JobWellFormed(env, flash, jobs[0]);
      SessionSplits(env, FlashAfter(flash, jobs[0].command), jobs[1..], last);
      Reassociate(ReplyTo(env, flash, jobs[0].command), Replies(env, FlashAfter(flash, jobs[0].command), jobs[1..]),
        ReplyTo(env, FlashAfterAll(env, flash, jobs), last.command));
    }
  }

  /** With any timing, the last thing the polling bootloader sends in a session is the interpreter's reply to the last
      command, on the flash the commands before it left, all of it at the rate of the session. */
  lemma LastReply(env: Env, s: Station, jobs: seq<Job>, last: Job) returns (earlier: seq<u8>)
    requires ValidEnv(env) && Clean(s) && ValidSession(env, s.flash, jobs + [last])
    ensures ValidSession(env, s.flash, jobs)
    ensures Run(env, s, SessionEvents(jobs + [last])).sent
      == s.sent + Tagged(earlier + ReplyTo(env, FlashAfterAll(env, s.flash, jobs), last.command), s.baud)
  {
    hide Run, ValidSession, Replies, ReplyTo, FlashAfterAll, Tagged, SessionEvents;
    SessionSplits(env, s.flash, jobs, last);
    SessionServed(env, s, jobs + [last]);
    earlier := Replies(env, s.flash, jobs);
  }

  /** SetAttr, anything that spares the attribute, GetAttr, over the loop with any timing: what is sent last is what the
      host's decoder delivers as the key and value that were set. */
  lemma AttributeThroughLoop(env: Env, s: Station, first: Job, others: seq<Job>, last: Job, d: RD.Decoder)
    returns (earlier: seq<u8>, reply: seq<u8>)
    requires ValidEnv(env) && Clean(s) && RT.Idle(d) && ValidSession(env, s.flash, [first] + others + [last])
    requires first.command.SetAttr? && !BadAttribute(first.command.index, first.command.value)
    requires last.command == C.GetAttr(first.command.index) && AllSpare(others, first.command.index)
    ensures |first.command.key| == 8
    ensures Run(env, s, SessionEvents([first] + others + [last])).sent == s.sent + Tagged(earlier + reply, s.baud)
    ensures RT.ArrivesAs(d, reply, RD.Got(R.GetAttr(first.command.key, first.command.value)))
  {
    var jobs := [first] + others;
    SessionSplits(env, s.flash, jobs, last);
    assert jobs[0] == first && jobs[1..] == others;
    JobWellFormed(env, s.flash, first);
    hide Run, ValidJob, ReplyTo, FlashAfter, Tagged, SessionEvents, RT.ArrivesAs, AllSpare;
    earlier := LastReply(env, s, jobs, last);
    reply := ReplyTo(env, FlashAfterAll(env, s.flash, jobs), last.command);
    LastAttributeArrives(d, env, s.flash, first.command, others);
  }

  /** A range asked for last is delivered as the bytes the flash holds then. */
  lemma RangeThroughLoop(env: Env, s: Station, jobs: seq<Job>, last: Job, d: RD.Decoder)
    returns (earlier: seq<u8>, reply: seq<u8>)
    requires ValidEnv(env) && Clean(s) && RT.Idle(d) && ValidSession(env, s.flash, jobs + [last])
    requires last.command.ReadRange? && 0 < last.command.length <= 4095
    requires last.command.address + last.command.length <= FLASH_SIZE
    ensures ValidSession(env, s.flash, jobs)
    ensures Run(env, s, SessionEvents(jobs + [last])).sent == s.sent + Tagged(earlier + reply, s.baud)
    ensures var (address, length) := (last.command.address, last.command.length);
      var d1 := RD.SetPayloadLen(d, length).0;
      RD.ValidDecoder(d1) && RT.ArrivesAs(d1, reply,
        RD.Got(R.ReadRange(FlashAfterAll(env, s.flash, jobs)[address..address + length])))
  {
    hide Run, ValidSession, ReplyTo, FlashAfterAll, Tagged, SessionEvents, RT.ArrivesAs;
    earlier := LastReply(env, s, jobs, last);
    reply := ReplyTo(env, FlashAfterAll(env, s.flash, jobs), last.command);
    RangeArrives(d, env, FlashAfterAll(env, s.flash, jobs), last.command.address, last.command.length);
  }

  /** A CRC asked for last is delivered, whatever its bytes. */
  lemma CrcThroughLoop(env: Env, s: Station, jobs: seq<Job>, last: Job, d: RD.Decoder)
    returns (earlier: seq<u8>, reply: seq<u8>)
    requires ValidEnv(env) && Clean(s) && RT.Idle(d) && ValidSession(env, s.flash, jobs + [last])
    requires last.command.CrcIntFlash? && !BadCrcRange(last.command.address, last.command.crcLength)
    ensures ValidSession(env, s.flash, jobs)
    ensures Run(env, s, SessionEvents(jobs + [last])).sent == s.sent + Tagged(earlier + reply, s.baud)
    ensures var (address, length) := (last.command.address, last.command.crcLength);
      RT.ArrivesAs(d, reply, RD.Got(R.CrcIntFlash(
        Crc.Crc32(0, FlashAfterAll(env, s.flash, jobs)[address..address + length]) as int)))
  {
    hide Run, ValidSession, ReplyTo, FlashAfterAll, Tagged, SessionEvents, RT.ArrivesAs, Crc.Crc32;
    earlier := LastReply(env, s, jobs, last);
    reply := ReplyTo(env, FlashAfterAll(env, s.flash, jobs), last.command);
    CrcArrives(d, env, FlashAfterAll(env, s.flash, jobs), last.command.address, last.command.crcLength);
  }

  // ---- the information text ----------------------------------------------------------------------

  /** What the length in front of the text makes of it. */
  function InfoMeans(info: seq<u8>): RD.Answer
    requires |info| == 193
  {
    if info[0] <= 192 then RD.Got(R.Info(info[1..1 + info[0] as nat])) else RD.Failed(Error.BadArguments)
  }

  lemma InfoReads(buffer: seq<u8>, info: seq<u8>)
    requires |info| == 193 && |buffer| == RD.BUFFER_LEN && buffer[..194] == [RES_INFO] + info
    ensures RD.Interpret(buffer, 194) == InfoMeans(info)
  {
    var n := info[0] as nat;
    RT.FirstByte(buffer, RES_INFO, info);
    assert buffer[1] == buffer[1..194][0];
    if n <= 192 {
      SliceOfSlice(buffer, 1, 193, 1, n);
    }
  }

  /** Unlike the new bootloader's, this one's information text always arrives, whatever its bytes, unless its length is
      wrong. */
  lemma InfoArrives(d: RD.Decoder, env: Env, flash: seq<u8>)
    requires RT.Idle(d) && ValidEnv(env) && |flash| == FLASH_SIZE
    ensures RT.ArrivesAs(d, ReplyTo(env, flash, C.Info), InfoMeans(env.info))
  {
    var d1 := RT.HeaderSet(d, RES_INFO, 193);
    var answer := RT.FeedBody(d1, env.info, 194);
    InfoReads(RT.After(d1, Escape(env.info)).buffer, env.info);
    hide Escape, RT.Answers, RT.After, RD.Interpret, InfoMeans;
    RT.AfterHeader(d, [ESCAPE_CHAR, RES_INFO], Escape(env.info), answer);
  }
}
