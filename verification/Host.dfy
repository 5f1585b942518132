/** What the host makes of the replies: which of them its decoder delivers, and what they tell it. */
module Host {
  import opened Bytes
  import opened Framing
  import opened BootloaderMachine
  import opened BootloaderRuns
  import opened BootloaderCommands
  import opened InfoText
  import Crc
  import S = Stack
  import C = Commands
  import R = Responses
  import RD = ResponseDecoding
  import RT = ResponseRoundTrip
  import RL = ResponseLoss

  // ---- ranges -------------------------------------------------------------------

  /** With the length announced, a range reply arrives if and only if it has between 1 and 4223 bytes. */
  lemma RangeReplyArrivesIff(d: RD.Decoder, cfg: Config, z: Sizes, mem: seq<u8>, address: u32, length: u16,
      buffer: seq<u8>)
    requires RT.Idle(d) && ValidSizes(z, |mem|) && |buffer| == z.buffer
    requires Serviceable(cfg, z, |mem|, C.ReadRange(address, length))
    ensures var d1 := RD.SetPayloadLen(d, length).0;
      && RD.ValidDecoder(d1)
      && (RD.Got(R.ReadRange(mem[address..address + length]))
            in RT.Answers(d1, Reply(cfg, z, mem, C.ReadRange(address, length), buffer))
          <==> 1 <= length <= 4223)
  {
    hide RT.Answers, Escape;
    RT.RangeArrivesIff(d, R.ReadRange(mem[address..address + length]));
  }

  // ---- CRCs -------------------------------------------------------------------------

  lemma CrcReads(bytes: seq<u8>)
    requires |bytes| == 4
    ensures RT.ReadsAs(R.RES_CRCIF, bytes, R.CrcIntFlash(ReadU32(bytes)))
  {
    forall buffer: seq<u8> | |buffer| == RD.BUFFER_LEN && buffer[..1 + |bytes|] == [R.RES_CRCIF] + bytes
      ensures RD.Interpret(buffer, 1 + |bytes|) == RD.Got(R.CrcIntFlash(ReadU32(bytes)))
    {
      RT.FirstByte(buffer, R.RES_CRCIF, bytes);
    }
  }

  /** The bootloader does not escape a CRC: the host's decoder delivers it if and only if none of its four
      bytes is the escape byte. */
  lemma CrcReplyArrivesIff(d: RD.Decoder, cfg: Config, z: Sizes, mem: seq<u8>, address: u32, length: u32,
      buffer: seq<u8>)
    requires RT.Idle(d) && ValidSizes(z, |mem|) && |buffer| == z.buffer
    requires Serviceable(cfg, z, |mem|, C.CrcIntFlash(address, length))
    ensures var crc := Crc.Crc32(0, mem[address..address + length]) as int;
      var reply := Reply(cfg, z, mem, C.CrcIntFlash(address, length), buffer);
      && (RT.ArrivesAs(d, reply, RD.Got(R.CrcIntFlash(crc))) <==> ESCAPE_CHAR !in LeU32(crc))
      && (RD.Got(R.CrcIntFlash(crc)) in RT.Answers(d, reply) <==> ESCAPE_CHAR !in LeU32(crc))
  {
    hide Crc.Crc32, Crc.RegisterBytes, RT.ArrivesAs, RT.ReadsAs, RT.Answers;
    var bytes := Crc.RegisterBytes(Crc.Crc32(0, mem[address..address + length]));
    CrcReads(bytes);
    Crc.BytesAreRegister(Crc.Crc32(0, mem[address..address + length]));
    RL.UnescapedDeliveredIff(d, R.RES_CRCIF, bytes, R.CrcIntFlash(ReadU32(bytes)));
  }

  /** Such a CRC exists: over the single byte 0x7D the reply is lost, and no CRC at all is delivered for it. */
  lemma CrcReplyLost(d: RD.Decoder, cfg: Config, z: Sizes, mem: seq<u8>, address: u32, buffer: seq<u8>)
    requires RT.Idle(d) && ValidSizes(z, |mem|) && |buffer| == z.buffer >= 6
    requires address < |mem| && mem[address] == 0x7D
    ensures Serviceable(cfg, z, |mem|, C.CrcIntFlash(address, 1))
    ensures Reply(cfg, z, mem, C.CrcIntFlash(address, 1), buffer) == [0xFC, 0x23, 0x0C, 0xE2, 0xB6, 0xFC]
    ensures forall a :: a in RT.Answers(d, Reply(cfg, z, mem, C.CrcIntFlash(address, 1), buffer)) && a.Got? ==>
      RT.IsSimple(a.response)
  {
    hide RT.Answers, Crc.Crc32, Crc.RegisterByte, Crc.RegisterBytes;
    assert mem[address..address + 1] == [0x7D];
    var bytes := Crc.RegisterBytes(Crc.Crc32(0, [0x7D]));
    Crc.CrcOf7D();
    assert bytes[3] == 0xFC;
    RL.UnescapedLost(d, R.RES_CRCIF, bytes);
  }

  // ---- the information string -----------------------------------------------------------

  predicate Plain(text: seq<u8>) {
    ESCAPE_CHAR !in text
  }

  lemma {:induction false} PlainAscii(s: string)
    requires forall c :: c in s ==> c as int < 128
    ensures Plain(Ascii(s))
  {
    forall b | b in Ascii(s) ensures b != ESCAPE_CHAR {
      var i :| 0 <= i < |s| && Ascii(s)[i] == b;
      assert s[i] in s;
    }
  }

  lemma PlainDigits(word: seq<u8>)
    requires |word| == 4
    ensures Plain(HexDigits(word))
  {
  }

  lemma PlainParts(a: seq<u8>, b: seq<u8>)
    ensures Plain(a + b) <==> Plain(a) && Plain(b)
  {
    if Plain(a + b) {
      forall x | x in a || x in b ensures x in a + b {
      }
    }
  }

  /** Only the version field can put an escape byte in the text. */
  lemma PlainJson(flags: seq<u8>)
    requires |flags| == 36
    ensures Plain(InfoJson(flags)) <==> Plain(Version(flags[14..22]))
  {
    var v, h := Version(flags[14..22]), HexDigits(flags[32..36]);
    PlainAscii("{\"version\":\"");
    PlainAscii("\", \"start_address\":\"0x");
    PlainAscii("\", ");
    PlainAscii("\"name\":\"Tock Bootloader\"}");
    PlainDigits(flags[32..36]);
    hide Plain;
    PlainParts(JsonVersion(), v);
    PlainParts(JsonVersion() + v, JsonStart());
    PlainParts(JsonVersion() + v + JsonStart(), h);
    PlainParts(JsonVersion() + v + JsonStart() + h, JsonComma());
    PlainParts(JsonVersion() + v + JsonStart() + h + JsonComma(), JsonName());
  }

  /** An information reply without its two header bytes. */
  function InfoBody(flags: seq<u8>, stale: u8): (s: seq<u8>)
    requires |flags| == 36
    ensures |s| == 193 && InfoReply(flags, stale) == [ESCAPE_CHAR, R.RES_INFO] + s
  {
    var json := InfoJson(flags);
    [|json| as u8] + json + [stale] + seq(INFO_LEN - 4 - |json|, _ => 0)
  }

  lemma PlainInfo(flags: seq<u8>, stale: u8)
    requires |flags| == 36
    ensures Plain(InfoBody(flags, stale)) <==> Plain(Version(flags[14..22])) && stale != ESCAPE_CHAR
  {
    var json := InfoJson(flags);
    var length, pad: seq<u8> := [|json| as u8], seq(INFO_LEN - 4 - |json|, _ => 0);
    PlainJson(flags);
    PlainParts(length, json);
    PlainParts(length + json, [stale]);
    PlainParts(length + json + [stale], pad);
    assert Plain(length) && Plain(pad);
  }

  lemma InfoReads(flags: seq<u8>, stale: u8)
    requires |flags| == 36
    ensures RT.ReadsAs(R.RES_INFO, InfoBody(flags, stale), R.Info(InfoJson(flags)))
  {
    var json, body := InfoJson(flags), InfoBody(flags, stale);
    hide InfoJson;
    forall buffer: seq<u8> | |buffer| == RD.BUFFER_LEN && buffer[..1 + |body|] == [R.RES_INFO] + body
      ensures RD.Interpret(buffer, 1 + |body|) == RD.Got(R.Info(json))
    {
      RT.FirstByte(buffer, R.RES_INFO, body);
      assert buffer[1..194][0] == |json| && buffer[1..194][1..1 + |json|] == json;
      SliceOfSlice(buffer, 1, 193, 1, |json|);
    }
  }

  lemma ReplyIs(flags: seq<u8>, stale: u8)
    requires |flags| == 36
    ensures var text := InfoJson(flags);
      InfoReply(flags, stale) == [0xFC, 0x25, |text|] + text + [stale] + seq(191 - |text|, _ => 0)
  {
    hide InfoJson;
  }

  lemma FlagsAre(cfg: Config, mem: seq<u8>)
    requires cfg.flagsAddress + 36 <= |mem|
    ensures var (at, flags) := (cfg.flagsAddress, FlagsOf(cfg, mem));
      flags[14..22] == mem[at + 14..at + 22] && flags[32..36] == mem[at + 32..at + 36]
  {
    SliceOfSlice(mem, cfg.flagsAddress, 36, 14, 8);
    SliceOfSlice(mem, cfg.flagsAddress, 36, 32, 4);
  }

  /** The information reply is not escaped either, and one of its bytes is left over in the command buffer: the host
      reads the text if and only if neither the version nor that byte holds the escape byte. */
  lemma InfoReplyArrivesIff(d: RD.Decoder, cfg: Config, z: Sizes, mem: seq<u8>, buffer: seq<u8>)
    requires RT.Idle(d) && ValidSizes(z, |mem|) && Serviceable(cfg, z, |mem|, C.Info) && |buffer| == z.buffer
    ensures cfg.flagsAddress + 36 <= |mem| && |buffer| >= INFO_LEN
    ensures var (at, text) := (cfg.flagsAddress, InfoJson(FlagsOf(cfg, mem)));
      var version := Version(mem[at + 14..at + 22]);
      var reply, clean := Reply(cfg, z, mem, C.Info, buffer),
        ESCAPE_CHAR !in version && buffer[73 + |version|] != ESCAPE_CHAR;
      && Shows(text, version, ReadU32(mem[at + 32..at + 36]))
      && reply == [0xFC, 0x25, |text|] + text + [buffer[73 + |version|]] + seq(121 - |version|, _ => 0)
      && (RT.ArrivesAs(d, reply, RD.Got(R.Info(text))) <==> clean)
      && (RD.Got(R.Info(text)) in RT.Answers(d, reply) <==> clean)
  {
    hide *;
    SizeFits(z, |mem|);
    InfoFits(cfg, z, |mem|);
    var flags, stale := FlagsOf(cfg, mem), LeftOver(cfg, mem, buffer);
    FlagsAre(cfg, mem);
    LeftOverPlace(cfg, mem, buffer);
    InfoReplyIs(cfg, z, mem, buffer);
    ReplyIs(flags, stale);
    TextShows(flags);
    InfoDeliveredIff(d, flags, stale);
  }

  lemma SizeFits(z: Sizes, size: nat)
    requires ValidSizes(z, size)
    ensures z.page > 0 && size <= 0x1_0000_0000
  {
  }

  lemma InfoFits(cfg: Config, z: Sizes, size: nat)
    requires z.page > 0 && Serviceable(cfg, z, size, C.Info)
    ensures cfg.flagsAddress + 36 <= size && z.buffer >= INFO_LEN
  {
  }

  lemma LeftOverPlace(cfg: Config, mem: seq<u8>, buffer: seq<u8>)
    requires cfg.flagsAddress + 36 <= |mem| && |buffer| >= INFO_LEN
    ensures LeftOver(cfg, mem, buffer)
      == buffer[73 + |Version(mem[cfg.flagsAddress + 14..cfg.flagsAddress + 22])|]
  {
    FlagsAre(cfg, mem);
    hide Version, FlagsOf;
  }

  lemma InfoReplyIs(cfg: Config, z: Sizes, mem: seq<u8>, buffer: seq<u8>)
    requires ValidSizes(z, |mem|) && Serviceable(cfg, z, |mem|, C.Info) && |buffer| == z.buffer
    ensures cfg.flagsAddress + 36 <= |mem| && |buffer| >= INFO_LEN
    ensures Reply(cfg, z, mem, C.Info, buffer) == InfoReply(FlagsOf(cfg, mem), LeftOver(cfg, mem, buffer))
  {
  }

  lemma InfoDeliveredIff(d: RD.Decoder, flags: seq<u8>, stale: u8)
    requires RT.Idle(d) && |flags| == 36
    ensures var (reply, answer) := (InfoReply(flags, stale), RD.Got(R.Info(InfoJson(flags))));
      var clean := ESCAPE_CHAR !in Version(flags[14..22]) && stale != ESCAPE_CHAR;
      (RT.ArrivesAs(d, reply, answer) <==> clean) && (answer in RT.Answers(d, reply) <==> clean)
  {
    hide RT.ArrivesAs, RT.ReadsAs, RT.Answers, InfoReply, InfoBody, InfoJson, Version;
    InfoReads(flags, stale);
    PlainInfo(flags, stale);
    RL.UnescapedDeliveredIff(d, R.RES_INFO, InfoBody(flags, stale), R.Info(InfoJson(flags)));
  }

  // ---- the start address -----------------------------------------------------------------

  /** After SetStartAddress the text shows the address and the version it showed before; outside the four bytes the
      memory is as it was. */
  lemma StartAddressShown(cfg: Config, z: Sizes, mem: seq<u8>, address: u32)
    requires ValidSizes(z, |mem|) && Serviceable(cfg, z, |mem|, C.SetStartAddress(address))
    ensures var next, at := NextMem(cfg, z, mem, C.SetStartAddress(address)), cfg.flagsAddress;
      && at + 36 <= |mem| && FlagsOf(cfg, next)[14..22] == mem[at + 14..at + 22]
      && Shows(InfoJson(FlagsOf(cfg, next)), Version(mem[at + 14..at + 22]), address)
      && next[..at + 32] == mem[..at + 32] && next[at + 36..] == mem[at + 36..]
  {
    var next, at := Splice(mem, cfg.flagsAddress + 32, LeU32(address)), cfg.flagsAddress;
    var flags := next[at..at + 36];
    StartAddressStored(mem, at, LeU32(address));
    LeU32RoundTrip(address, [0, 0, 0, 0]);
    hide Splice, Version, LeU32, InfoJson, Shows;
    TextShows(flags);
  }

  lemma StartAddressStored(mem: seq<u8>, at: nat, word: seq<u8>)
    requires at + 36 <= |mem| && |word| == 4
    ensures var next := Splice(mem, at + 32, word);
      && next[at..at + 36][32..36] == word && next[at..at + 36][14..22] == mem[at + 14..at + 22]
      && next[..at + 32] == mem[..at + 32] && next[at + 36..] == mem[at + 36..]
  {
    var next := Splice(mem, at + 32, word);
    SliceOfSlice(next, at, 36, 32, 4);
    SliceOfSlice(next, at, 36, 14, 8);
    SliceOfSlice(mem, at, 36, 14, 8);
    assert next[at + 32..at + 36] == word;
    SpliceApart(mem, at + 32, word, at + 14, 8);
  }

  // ---- memory that other commands leave alone ---------------------------------------------

  /** Where a command may change the memory: from the first address, so many bytes. */
  function Footprint(cfg: Config, z: Sizes, c: C.Command): (nat, nat)
    requires z.page > 0
  {
    match c
    case WritePage(address, data) =>
      if Writable(cfg, z, address, data) then (PageStart(z.page, address / z.page), z.page) else (0, 0)
    case ErasePage(address) => (PageStart(z.page, address / z.page), z.page)
    case SetAttr(index, _, _) => (AttributeAddress(cfg, index), SLOT)
    case SetStartAddress(_) => (cfg.flagsAddress + 32, 4)
    case _ => (0, 0)
  }

  /** The command does not reach the `n` bytes at `from`. */
  predicate Spares(cfg: Config, z: Sizes, c: C.Command, from: nat, n: nat)
    requires z.page > 0
  {
    var (start, size) := Footprint(cfg, z, c);
    size == 0 || start + size <= from || from + n <= start
  }

  lemma RegionSpared(cfg: Config, z: Sizes, mem: seq<u8>, c: C.Command, from: nat, n: nat)
    requires ValidSizes(z, |mem|) && C.WellFormed(c) && Serviceable(cfg, z, |mem|, c)
    requires from + n <= |mem| && Spares(cfg, z, c, from, n)
    ensures NextMem(cfg, z, mem, c)[from..from + n] == mem[from..from + n]
  {
    match c
    case SetAttr(other, key, value) =>
      SpliceApart(mem, AttributeAddress(cfg, other), AttributeSlot(key, value), from, n);
    case SetStartAddress(address) => SpliceApart(mem, cfg.flagsAddress + 32, LeU32(address), from, n);
    case WritePage(address, data) =>
      InItsPage(z.page, |mem|, address);
      if Writable(cfg, z, address, data) {
        SpliceApart(mem, PageStart(z.page, address / z.page), data, from, n);
      }
    case ErasePage(address) =>
      InItsPage(z.page, |mem|, address);
      SpliceApart(mem, PageStart(z.page, address / z.page), seq(z.page, _ => 0xFF), from, n);
    case _ =>
  }

  /** Setting other attributes, reading, and (with the flags in front of the attributes) setting the start address
      leave a slot alone. */
  lemma OrdinaryCommandsSpare(cfg: Config, z: Sizes, c: C.Command, index: u8)
    requires z.page > 0
    requires c.GetAttr? || c.ReadRange? || c.CrcIntFlash? || c.Info? || c.Ping?
      || (c.SetAttr? && c.index != index)
      || (c.SetStartAddress? && cfg.flagsAddress + 36 <= cfg.attributesAddress)
    ensures Spares(cfg, z, c, cfg.attributesAddress + 64 * (index as int), 64)
  {
    if c.SetAttr? {
      var i: nat, j: nat := c.index, index;
      assert i < j ==> i * SLOT + SLOT <= j * SLOT;
      assert j < i ==> j * SLOT + SLOT <= i * SLOT;
    }
  }

  /** The job asks for this command. */
  predicate Asks(z: Sizes, j: S.Job, c: C.Command) {
    S.Asked(z, j) == Perform(c)
  }

  /** What the job asks for does not reach the region. */
  predicate JobSpares(cfg: Config, z: Sizes, j: S.Job, from: nat, n: nat)
    requires z.page > 0
  {
    S.Asked(z, j).Perform? ==> Spares(cfg, z, S.Asked(z, j).command, from, n)
  }

  predicate AllSpare(cfg: Config, z: Sizes, jobs: seq<S.Job>, from: nat, n: nat)
    requires z.page > 0
  {
    forall i :: 0 <= i < |jobs| ==> JobSpares(cfg, z, jobs[i], from, n)
  }

  lemma JobFits(cfg: Config, z: Sizes, size: nat, j: S.Job, c: C.Command)
    requires z.page > 0 && S.ValidJob(cfg, z, size, j) && Asks(z, j, c)
    ensures C.WellFormed(c) && Serviceable(cfg, z, size, c)
  {
  }

  lemma JobKeeps(cfg: Config, z: Sizes, mem: seq<u8>, j: S.Job, from: nat, n: nat)
    requires ValidSizes(z, |mem|) && S.ValidJob(cfg, z, |mem|, j)
    requires from + n <= |mem| && JobSpares(cfg, z, j, from, n)
    ensures Manageable(cfg, z, |mem|, S.Asked(z, j))
    ensures MemOn(cfg, z, mem, S.Asked(z, j))[from..from + n] == mem[from..from + n]
  {
    hide S.Asked, NextMem, Spares;
    if S.Asked(z, j).Perform? {
      RegionSpared(cfg, z, mem, S.Asked(z, j).command, from, n);
    }
  }

  lemma {:induction false} RegionKept(cfg: Config, z: Sizes, mem: seq<u8>, jobs: seq<S.Job>, from: nat, n: nat)
    requires ValidSizes(z, |mem|) && S.ValidJobs(cfg, z, |mem|, jobs)
    requires from + n <= |mem| && AllSpare(cfg, z, jobs, from, n)
    ensures S.MemAfter(cfg, z, mem, jobs)[from..from + n] == mem[from..from + n]
    decreases |jobs|
  {
    hide MemOn, JobSpares, S.ValidJob, S.Asked;
    if jobs != [] {
      assert S.ValidJob(cfg, z, |mem|, jobs[0]) && JobSpares(cfg, z, jobs[0], from, n);
      JobKeeps(cfg, z, mem, jobs[0], from, n);
      forall i | 0 <= i < |jobs[1..]| ensures JobSpares(cfg, z, jobs[1..][i], from, n) {
        assert jobs[1..][i] == jobs[i + 1];
      }
      RegionKept(cfg, z, MemOn(cfg, z, mem, S.Asked(z, jobs[0])), jobs[1..], from, n);
    }
  }

  /** What the first of several commands left in a region is still there after the others spared it. */
  lemma FirstKept(cfg: Config, z: Sizes, mem: seq<u8>, first: S.Job, c: C.Command, others: seq<S.Job>,
      from: nat, n: nat)
    requires ValidSizes(z, |mem|) && S.ValidJobs(cfg, z, |mem|, [first] + others) && Asks(z, first, c)
    requires S.ValidJobs(cfg, z, |mem|, others) && from + n <= |mem| && AllSpare(cfg, z, others, from, n)
    ensures C.WellFormed(c) && Serviceable(cfg, z, |mem|, c)
    ensures S.MemAfter(cfg, z, mem, [first] + others)[from..from + n] == NextMem(cfg, z, mem, c)[from..from + n]
  {
    var jobs := [first] + others;
    assert jobs[0] == first && jobs[1..] == others;
    JobFits(cfg, z, |mem|, jobs[0], c);
    hide NextMem, AllSpare, S.ValidJob;
    RegionKept(cfg, z, NextMem(cfg, z, mem, c), others, from, n);
  }

  // ---- attributes and pages read back -----------------------------------------------------------

  /** What the slot holds is what a GetAttr response carries. */
  lemma SlotIsBody(key: seq<u8>, value: seq<u8>)
    requires |key| == 8 && |value| <= 55
    ensures AttributeSlot(key, value) == R.Body(R.GetAttr(key, value))
  {
    assert value[..|value|] == value;
    var pad: seq<u8> := seq(55 - |value|, _ => 0);
    assert key + [|value| as u8] + value + pad == key + [|value| as u8] + (value + pad);
  }

  /** The slot holds the key and the value: GetAttr is answered with them, and the host's decoder delivers them. */
  lemma SlotAnswers(
      cfg: Config, z: Sizes, mem: seq<u8>, index: u8, key: seq<u8>, value: seq<u8>, d: RD.Decoder,
      buffer: seq<u8>)
    requires |buffer| == z.buffer
    requires ValidSizes(z, |mem|) && Serviceable(cfg, z, |mem|, C.GetAttr(index)) && RT.Idle(d)
    requires |key| == 8 && |value| <= 55
    requires var at := AttributeAddress(cfg, index); mem[at..at + 64] == AttributeSlot(key, value)
    ensures var reply := Reply(cfg, z, mem, C.GetAttr(index), buffer);
      && reply == R.Wire(R.GetAttr(key, value))
      && RT.ArrivesAs(d, reply, RD.Got(R.GetAttr(key, value)))
  {
    hide RT.Answers, Escape, AttributeSlot;
    SlotIsBody(key, value);
    RT.FeedWire(d, R.GetAttr(key, value));
  }

  /** Slot `index` has 64 bytes and lies behind the slots before it. */
  lemma SlotPlace(cfg: Config, index: u8)
    ensures AttributeAddress(cfg, index) == cfg.attributesAddress + 64 * (index as int)
  {
  }

  /** The slot a command sets. */
  ghost predicate SetsSlot(cfg: Config, c: C.Command, at: nat, slot: seq<u8>) {
    && c.SetAttr? && |c.key| == 8 && |c.value| < 256
    && at == AttributeAddress(cfg, c.index) && slot == AttributeSlot(c.key, c.value)
  }

  lemma SetsThis(cfg: Config, c: C.Command)
    requires c.SetAttr? && |c.key| == 8 && |c.value| < 256
    ensures SetsSlot(cfg, c, AttributeAddress(cfg, c.index), AttributeSlot(c.key, c.value))
  {
  }

  lemma SlotWritten(cfg: Config, z: Sizes, mem: seq<u8>, c: C.Command, at: nat, slot: seq<u8>)
    requires ValidSizes(z, |mem|) && C.WellFormed(c) && Serviceable(cfg, z, |mem|, c) && SetsSlot(cfg, c, at, slot)
    ensures at + 64 <= |mem| && NextMem(cfg, z, mem, c)[at..at + 64] == slot
  {
  }

  lemma SlotKept(cfg: Config, z: Sizes, mem: seq<u8>, first: S.Job, c: C.Command, others: seq<S.Job>,
      at: nat, slot: seq<u8>)
    requires ValidSizes(z, |mem|) && S.ValidJobs(cfg, z, |mem|, [first] + others) && Asks(z, first, c)
    requires S.ValidJobs(cfg, z, |mem|, others) && SetsSlot(cfg, c, at, slot)
    requires AllSpare(cfg, z, others, at, 64)
    ensures at + 64 <= |mem| && S.MemAfter(cfg, z, mem, [first] + others)[at..at + 64] == slot
  {
    assert ([first] + others)[0] == first;
    JobFits(cfg, z, |mem|, first, c);
    SlotWritten(cfg, z, mem, c, at, slot);
    hide *;
    FirstKept(cfg, z, mem, first, c, others, at, 64);
  }

  /** After SetAttr, whatever else is done elsewhere, GetAttr is answered with exactly the key and value that were
      set, and the host's decoder delivers them: values holding the escape byte included. */
  lemma AttributeReadsBack(cfg: Config, z: Sizes, mem: seq<u8>, first: S.Job, c: C.Command, others: seq<S.Job>,
      d: RD.Decoder, buffer: seq<u8>)
    requires ValidSizes(z, |mem|) && S.ValidJobs(cfg, z, |mem|, [first] + others) && RT.Idle(d)
    requires Asks(z, first, c) && c.SetAttr? && |c.key| == 8 && |c.value| <= 55
    requires S.ValidJobs(cfg, z, |mem|, others)
    requires AllSpare(cfg, z, others, cfg.attributesAddress + 64 * (c.index as int), 64)
    requires |buffer| == z.buffer && Serviceable(cfg, z, |mem|, C.GetAttr(c.index))
    ensures var reply := Reply(cfg, z, S.MemAfter(cfg, z, mem, [first] + others), C.GetAttr(c.index), buffer);
      && reply == R.Wire(R.GetAttr(c.key, c.value))
      && RT.ArrivesAs(d, reply, RD.Got(R.GetAttr(c.key, c.value)))
  {
    hide *;
    SizeFits(z, |mem|);
    var at, slot := AttributeAddress(cfg, c.index), AttributeSlot(c.key, c.value);
    SetsThis(cfg, c);
    SlotPlace(cfg, c.index);
    SlotKept(cfg, z, mem, first, c, others, at, slot);
    SlotAnswers(cfg, z, S.MemAfter(cfg, z, mem, [first] + others), c.index, c.key, c.value, d, buffer);
  }

  lemma RangeAnswers(cfg: Config, z: Sizes, mem: seq<u8>, address: u32, data: seq<u8>, d: RD.Decoder,
      buffer: seq<u8>)
    requires |buffer| == z.buffer && ValidSizes(z, |mem|) && 0 < |data| < 4224 && RT.Idle(d)
    requires address + |data| <= |mem| && mem[address..address + |data|] == data
    ensures RT.ArrivesAs(
      RT.Prepare(d, R.ReadRange(data)),
      Reply(cfg, z, mem, C.ReadRange(address, |data|), buffer),
      RD.Got(R.ReadRange(data)))
  {
    hide RT.Answers, Escape;
    RT.FeedWire(d, R.ReadRange(data));
  }

  /** The page a command writes whole. */
  ghost predicate WritesPage(cfg: Config, z: Sizes, c: C.Command, start: nat, data: seq<u8>)
    requires z.page > 0
  {
    && c.WritePage? && Writable(cfg, z, c.address, c.data)
    && start == PageStart(z.page, c.address / z.page) && data == c.data
  }

  lemma PageWritten(cfg: Config, z: Sizes, mem: seq<u8>, c: C.Command, start: nat, data: seq<u8>)
    requires ValidSizes(z, |mem|) && C.WellFormed(c) && Serviceable(cfg, z, |mem|, c)
    requires WritesPage(cfg, z, c, start, data)
    ensures |data| == z.page && start + z.page <= |mem| && NextMem(cfg, z, mem, c)[start..start + z.page] == data
  {
    InItsPage(z.page, |mem|, c.address);
  }

  lemma PageKept(cfg: Config, z: Sizes, mem: seq<u8>, first: S.Job, c: C.Command, others: seq<S.Job>,
      start: nat, data: seq<u8>)
    returns (after: seq<u8>)
    requires ValidSizes(z, |mem|) && S.ValidJobs(cfg, z, |mem|, [first] + others) && Asks(z, first, c)
    requires S.ValidJobs(cfg, z, |mem|, others) && WritesPage(cfg, z, c, start, data)
    requires AllSpare(cfg, z, others, start, z.page)
    ensures after == S.MemAfter(cfg, z, mem, [first] + others) && |after| == |mem| <= 0x1_0000_0000
    ensures |data| == z.page && start + z.page <= |mem| && after[start..start + z.page] == data
  {
    assert ([first] + others)[0] == first && |mem| <= 0x1_0000_0000;
    JobFits(cfg, z, |mem|, first, c);
    PageWritten(cfg, z, mem, c, start, data);
    hide *;
    FirstKept(cfg, z, mem, first, c, others, start, z.page);
    after := S.MemAfter(cfg, z, mem, [first] + others);
  }

  /** After WritePage, whatever else is done elsewhere, a range within the page reads back as what was written. */
  lemma PageReadsBack(cfg: Config, z: Sizes, mem: seq<u8>, first: S.Job, c: C.Command, others: seq<S.Job>,
      start: nat, data: seq<u8>, offset: nat, length: nat, d: RD.Decoder, buffer: seq<u8>)
    requires |buffer| == z.buffer && ValidSizes(z, |mem|) && S.ValidJobs(cfg, z, |mem|, [first] + others) && RT.Idle(d)
    requires S.ValidJobs(cfg, z, |mem|, others) && Asks(z, first, c) && WritesPage(cfg, z, c, start, data)
    requires AllSpare(cfg, z, others, start, z.page)
    requires offset + length <= |data| && 0 < length < 4224
    ensures start + |data| <= |mem| <= 0x1_0000_0000
    ensures RT.ArrivesAs(
      RT.Prepare(d, R.ReadRange(data[offset..offset + length])),
      Reply(cfg, z, S.MemAfter(cfg, z, mem, [first] + others), C.ReadRange(start + offset, length), buffer),
      RD.Got(R.ReadRange(data[offset..offset + length])))
  {
    hide *;
    var after := PageKept(cfg, z, mem, first, c, others, start, data);
    RangeOfPage(after, start, z.page, data, offset, length);
    RangeAnswers(cfg, z, after, start + offset, data[offset..offset + length], d, buffer);
  }

  lemma RangeOfPage(mem: seq<u8>, start: nat, size: nat, data: seq<u8>, offset: nat, length: nat)
    requires start + size <= |mem| && mem[start..start + size] == data && offset + length <= size
    ensures mem[start + offset..start + offset + length] == data[offset..offset + length]
  {
    SliceOfSlice(mem, start, size, offset, length);
  }

  // ---- the same over the whole stack ------------------------------------------------------

  /** Each reply is computed from the memory and the command buffer the jobs before it left. */
  lemma {:induction false} ReplyAt(cfg: Config, z: Sizes, mem: seq<u8>, buffer: seq<u8>, jobs: seq<S.Job>, i: nat)
    requires ValidSizes(z, |mem|) && S.ValidJobs(cfg, z, |mem|, jobs) && i < |jobs| && |buffer| == z.buffer
    ensures S.ValidJob(cfg, z, |mem|, jobs[i])
    ensures S.Replies(cfg, z, mem, buffer, jobs)[i]
      == ReplyOn(cfg, z, S.MemAfter(cfg, z, mem, jobs[..i]), S.Asked(z, jobs[i]),
           S.Arrived(S.BufferAfter(cfg, z, mem, buffer, jobs[..i]), jobs[i]))
    decreases i
  {
    hide ReplyOn, MemOn, BufferOn, S.Arrived, S.Asked;
    if i == 0 {
      assert S.MemAfter(cfg, z, mem, jobs[..0]) == mem && S.BufferAfter(cfg, z, mem, buffer, jobs[..0]) == buffer;
    } else {
      assert S.ValidJob(cfg, z, |mem|, jobs[0]);
      var a := S.Asked(z, jobs[0]);
      ReplyAt(cfg, z, MemOn(cfg, z, mem, a), BufferOn(cfg, z, mem, a, S.Arrived(buffer, jobs[0])), jobs[1..], i - 1);
      assert jobs[..i][1..] == jobs[1..][..i - 1] && jobs[..i][0] == jobs[0];
    }
  }

  lemma LastPart(parts: seq<seq<u8>>)
    requires parts != []
    ensures Flatten(parts) == Flatten(parts[..|parts| - 1]) + parts[|parts| - 1]
  {
    FlattenAppend(parts[..|parts| - 1], parts[|parts| - 1]);
    assert parts == parts[..|parts| - 1] + [parts[|parts| - 1]];
  }

  /** Through the UART capsule, the bootloader and the page adapter, the last thing sent is the interpreter's reply to
      the last job, from the memory and the command buffer the jobs before it left. */
  lemma LastReply(cfg: Config, z: Sizes, size: nat, s: S.Stack, jobs: seq<S.Job>, last: S.Job)
    returns (earlier: seq<u8>, buffer: seq<u8>)
    requires S.StackInv(cfg, z, size, s) && Armed(S.Flat(s))
    requires S.ValidJobs(cfg, z, |s.mem|, jobs + [last]) && S.ValidJobs(cfg, z, |s.mem|, jobs)
    ensures Manageable(cfg, z, |s.mem|, S.Asked(z, last)) && |s.m.line.buffer| == z.buffer
    ensures buffer == S.Arrived(S.BufferAfter(cfg, z, s.mem, s.m.line.buffer, jobs), last)
    ensures S.RunJobs(cfg, z, size, s, jobs + [last]).sent
      == s.sent + (earlier + ReplyOn(cfg, z, S.MemAfter(cfg, z, s.mem, jobs), S.Asked(z, last), buffer))
  {
    assert ValidSizes(z, |s.mem|) && |s.m.line.buffer| == z.buffer;
    hide S.StackInv, ReplyOn, S.RunJobs, S.MemAfter, S.BufferAfter, S.ValidJobs, ValidSizes, S.Replies, Flatten,
      S.Asked, Manageable;
    var all := jobs + [last];
    S.StackRefines(cfg, z, size, s, all);
    ReplyAt(cfg, z, s.mem, s.m.line.buffer, all, |jobs|);
    assert all[..|jobs|] == jobs && all[|jobs|] == last;
    var replies := S.Replies(cfg, z, s.mem, s.m.line.buffer, all);
    LastPart(replies);
    earlier := Flatten(replies[..|jobs|]);
    buffer := S.Arrived(S.BufferAfter(cfg, z, s.mem, s.m.line.buffer, jobs), last);
  }

  lemma PartsValid(cfg: Config, z: Sizes, size: nat, first: S.Job, others: seq<S.Job>, last: S.Job)
    requires z.page > 0 && S.ValidJobs(cfg, z, size, [first] + others + [last])
    ensures S.ValidJobs(cfg, z, size, [first] + others) && S.ValidJobs(cfg, z, size, others)
    ensures S.ValidJob(cfg, z, size, first) && S.ValidJob(cfg, z, size, last)
  {
    var all := [first] + others + [last];
    hide S.ValidJob;
    assert all[0] == first && all[|others| + 1] == last;
    assert S.ValidJob(cfg, z, size, all[0]) && S.ValidJob(cfg, z, size, all[|others| + 1]);
    forall i | 0 <= i < |others| ensures S.ValidJob(cfg, z, size, others[i]) {
      assert all[i + 1] == others[i];
    }
    forall i | 0 <= i < |[first] + others| ensures S.ValidJob(cfg, z, size, ([first] + others)[i]) {
      assert all[i] == ([first] + others)[i];
    }
  }

  /** The last job asks for a command: the reply is that command's. */
  lemma LastCommandReply(cfg: Config, z: Sizes, size: nat, s: S.Stack, jobs: seq<S.Job>, last: S.Job, c: C.Command)
    returns (earlier: seq<u8>, buffer: seq<u8>)
    requires S.StackInv(cfg, z, size, s) && Armed(S.Flat(s)) && Asks(z, last, c)
    requires S.ValidJobs(cfg, z, |s.mem|, jobs + [last]) && S.ValidJobs(cfg, z, |s.mem|, jobs)
    ensures C.WellFormed(c) && Serviceable(cfg, z, |s.mem|, c) && |s.m.line.buffer| == z.buffer
    ensures buffer == S.Arrived(S.BufferAfter(cfg, z, s.mem, s.m.line.buffer, jobs), last)
    ensures S.RunJobs(cfg, z, size, s, jobs + [last]).sent
      == s.sent + (earlier + Reply(cfg, z, S.MemAfter(cfg, z, s.mem, jobs), c, buffer))
  {
    hide S.StackInv, S.RunJobs, S.MemAfter, S.BufferAfter, S.ValidJob, S.ValidJobs, S.Asked, S.Arrived, Reply;
    earlier, buffer := LastReply(cfg, z, size, s, jobs, last);
  }

  /** SetAttr, anything that spares the slot, GetAttr: what is sent last is what the host's decoder delivers as the key
      and value that were set. */
  lemma AttributeThroughStack(cfg: Config, z: Sizes, size: nat, s: S.Stack, first: S.Job, c: C.Command,
      others: seq<S.Job>, last: S.Job, d: RD.Decoder)
    returns (earlier: seq<u8>, reply: seq<u8>)
    requires S.StackInv(cfg, z, size, s) && Armed(S.Flat(s)) && RT.Idle(d)
    requires S.ValidJobs(cfg, z, |s.mem|, [first] + others + [last])
    requires Asks(z, first, c) && c.SetAttr? && |c.key| == 8 && |c.value| <= 55 && Asks(z, last, C.GetAttr(c.index))
    requires AllSpare(cfg, z, others, cfg.attributesAddress + 64 * (c.index as int), 64)
    ensures S.RunJobs(cfg, z, size, s, [first] + others + [last]).sent == s.sent + (earlier + reply)
    ensures RT.ArrivesAs(d, reply, RD.Got(R.GetAttr(c.key, c.value)))
  {
    assert ValidSizes(z, |s.mem|) && z.page > 0;
    hide *;
    PartsValid(cfg, z, |s.mem|, first, others, last);
    var buffer: seq<u8>;
    earlier, buffer := LastCommandReply(cfg, z, size, s, [first] + others, last, C.GetAttr(c.index));
    reply := Reply(cfg, z, S.MemAfter(cfg, z, s.mem, [first] + others), C.GetAttr(c.index), buffer);
    AttributeReadsBack(cfg, z, s.mem, first, c, others, d, buffer);
  }

  /** WritePage, anything that spares the page, ReadRange within it: the host's decoder delivers what was written. */
  lemma PageThroughStack(cfg: Config, z: Sizes, size: nat, s: S.Stack, first: S.Job, c: C.Command, others: seq<S.Job>,
      last: S.Job, q: C.Command, start: nat, data: seq<u8>, offset: nat, length: nat, d: RD.Decoder)
    returns (earlier: seq<u8>, reply: seq<u8>)
    requires S.StackInv(cfg, z, size, s) && Armed(S.Flat(s)) && RT.Idle(d)
    requires S.ValidJobs(cfg, z, |s.mem|, [first] + others + [last])
    requires Asks(z, first, c) && WritesPage(cfg, z, c, start, data) && AllSpare(cfg, z, others, start, z.page)
    requires offset + length <= |data| && 0 < length < 4224
    requires Asks(z, last, q) && q.ReadRange? && q.address == start + offset && q.length == length
    ensures S.RunJobs(cfg, z, size, s, [first] + others + [last]).sent == s.sent + (earlier + reply)
    ensures var answer := R.ReadRange(data[offset..offset + length]);
      RT.ArrivesAs(RT.Prepare(d, answer), reply, RD.Got(answer))
  {
    assert ValidSizes(z, |s.mem|) && z.page > 0 && q == C.ReadRange(start + offset, length);
    hide *;
    PartsValid(cfg, z, |s.mem|, first, others, last);
    var buffer: seq<u8>;
    earlier, buffer := LastCommandReply(cfg, z, size, s, [first] + others, last, q);
    reply := Reply(cfg, z, S.MemAfter(cfg, z, s.mem, [first] + others), q, buffer);
    PageReadsBack(cfg, z, s.mem, first, c, others, start, data, offset, length, d, buffer);
  }
}
