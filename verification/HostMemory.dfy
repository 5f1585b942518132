/** Where a host's commands go: pages, attribute slots and the protected code, by address. */
module HostMemory {
  import opened Bytes
  import opened Framing
  import opened BootloaderMachine
  import opened BootloaderRuns
  import opened BootloaderCommands
  import opened Host
  import opened HostInfo
  import S = Stack
  import C = Commands
  import D = CommandDecoding
  import T = CommandRoundTrip
  import R = Responses
  import RD = ResponseDecoding
  import RT = ResponseRoundTrip

  // ---- one job through the stack -----------------------------------------------------------

  /** One job that asks for a command: memory and output are the interpreter's. */
  lemma JobThroughStack(cfg: Config, z: Sizes, size: nat, s: S.Stack, j: S.Job, c: C.Command) returns (buffer: seq<u8>)
    requires S.StackInv(cfg, z, size, s) && Armed(S.Flat(s)) && S.ValidJobs(cfg, z, |s.mem|, [j]) && Asks(z, j, c)
    ensures C.WellFormed(c) && ValidSizes(z, |s.mem|) && Serviceable(cfg, z, |s.mem|, c) && |buffer| == z.buffer
    ensures var r := S.RunJobs(cfg, z, size, s, [j]);
      r.mem == NextMem(cfg, z, s.mem, c) && r.sent == s.sent + Reply(cfg, z, s.mem, c, buffer)
  {
    hide *;
    StackSizes(cfg, z, size, s);
    S.StackRefines(cfg, z, size, s, [j]);
    OneJobAfter(cfg, z, s.mem, s.m.line.buffer, j, c);
    buffer := S.Arrived(s.m.line.buffer, j);
  }

  lemma OneJobAfter(cfg: Config, z: Sizes, mem: seq<u8>, before: seq<u8>, j: S.Job, c: C.Command)
    requires ValidSizes(z, |mem|) && S.ValidJobs(cfg, z, |mem|, [j]) && Asks(z, j, c) && |before| == z.buffer
    ensures C.WellFormed(c) && Serviceable(cfg, z, |mem|, c)
    ensures S.MemAfter(cfg, z, mem, [j]) == NextMem(cfg, z, mem, c)
    ensures Flatten(S.Replies(cfg, z, mem, before, [j])) == Reply(cfg, z, mem, c, S.Arrived(before, j))
  {
    var jobs := [j];
    assert S.ValidJob(cfg, z, |mem|, jobs[0]) && jobs[1..] == [];
    JobFits(cfg, z, |mem|, j, c);
    hide S.ValidJob, S.Asked, NextMem, Reply, Serviceable, NextBuffer, S.Arrived;
    var reply := Reply(cfg, z, mem, c, S.Arrived(before, j));
    assert S.MemAfter(cfg, z, NextMem(cfg, z, mem, c), []) == NextMem(cfg, z, mem, c);
    assert S.Replies(cfg, z, mem, before, [j]) == [reply];
    FlattenFirst(reply, []);
    FlattenNone();
    assert [reply] + [] == [reply] && reply + [] == reply;
  }

  // ---- pages ------------------------------------------------------------------------------------

  /** What the flash holds and what is answered after a page write: refused if the data is not a page or the address is
      one of the bootloader's, done otherwise. */
  predicate PageWritten(cfg: Config, page: nat, mem: seq<u8>, address: u32, data: seq<u8>, next: seq<u8>,
      reply: seq<u8>)
    requires page > 0
  {
    var at := address - address % page;
    if |data| != page then next == mem && reply == [0xFC, 0x14]
    else if address < cfg.bootloaderAddress || address >= cfg.bootloaderEnd then
      && at + page <= |mem| == |next| && next[at..at + page] == data && SameElsewhere(mem, next, at, page)
      && reply == [0xFC, 0x15]
    else next == mem && reply == [0xFC, 0x12]
  }

  lemma PageAt(z: Sizes, size: nat, address: u32)
    requires ValidSizes(z, size) && address < size
    ensures PageStart(z.page, address / z.page) == address - address % z.page
    ensures address - address % z.page + z.page <= size
  {
    InItsPage(z.page, size, address);
  }

  lemma WriteDone(cfg: Config, z: Sizes, mem: seq<u8>, address: u32, data: seq<u8>, buffer: seq<u8>)
    requires ValidSizes(z, |mem|) && Serviceable(cfg, z, |mem|, C.WritePage(address, data)) && |buffer| == z.buffer
    ensures PageWritten(cfg, z.page, mem, address, data, NextMem(cfg, z, mem, C.WritePage(address, data)),
      Reply(cfg, z, mem, C.WritePage(address, data), buffer))
  {
    hide R.Wire;
    PageAt(z, |mem|, address);
    R.BareWire(R.Okay);
    R.BareWire(R.BadAddress);
    R.BareWire(R.BadArguments);
    hide PageStart;
    var at := address - address % z.page;
    if Writable(cfg, z, address, data) {
      assert NextMem(cfg, z, mem, C.WritePage(address, data)) == Splice(mem, at, data);
    }
  }

  lemma PageSizes(cfg: Config, z: Sizes, size: nat, s: S.Stack, address: u32, data: seq<u8>)
    requires S.StackInv(cfg, z, size, s)
    ensures C.Accepted(C.WritePage(address, data)) <==> |data| == z.page
  {
  }

  /** Through the whole stack, from every state in which the receive is armed. What the encoder lets through has the
      right length. */
  lemma WriteThroughStack(cfg: Config, z: Sizes, size: nat, s: S.Stack, j: S.Job, address: u32, data: seq<u8>)
    returns (reply: seq<u8>)
    requires S.StackInv(cfg, z, size, s) && Armed(S.Flat(s)) && S.ValidJobs(cfg, z, |s.mem|, [j])
    requires Asks(z, j, C.WritePage(address, data))
    ensures var r := S.RunJobs(cfg, z, size, s, [j]);
      z.page > 0 && PageWritten(cfg, z.page, s.mem, address, data, r.mem, reply) && r.sent == s.sent + reply
    ensures C.Accepted(C.WritePage(address, data)) <==> |data| == z.page
  {
    hide *;
    PageSizes(cfg, z, size, s, address, data);
    StackSizes(cfg, z, size, s);
    var buffer := JobThroughStack(cfg, z, size, s, j, C.WritePage(address, data));
    WriteDone(cfg, z, s.mem, address, data, buffer);
    reply := Reply(cfg, z, s.mem, C.WritePage(address, data), buffer);
  }

  lemma EraseDone(cfg: Config, z: Sizes, mem: seq<u8>, address: u32, buffer: seq<u8>)
    requires ValidSizes(z, |mem|) && Serviceable(cfg, z, |mem|, C.ErasePage(address)) && |buffer| == z.buffer
    ensures var (at, next) := (address - address % z.page, NextMem(cfg, z, mem, C.ErasePage(address)));
      && at + z.page <= |mem| && SameElsewhere(mem, next, at, z.page)
      && (forall a :: at <= a < at + z.page ==> next[a] == 0xFF)
      && Reply(cfg, z, mem, C.ErasePage(address), buffer) == [0xFC, 0x15]
  {
    hide R.Wire;
    PageAt(z, |mem|, address);
    R.BareWire(R.Okay);
    hide PageStart;
  }

  /** An erase is done whatever the address: the page around it reads ones. */
  lemma EraseThroughStack(cfg: Config, z: Sizes, size: nat, s: S.Stack, j: S.Job, address: u32)
    requires S.StackInv(cfg, z, size, s) && Armed(S.Flat(s)) && S.ValidJobs(cfg, z, |s.mem|, [j])
    requires Asks(z, j, C.ErasePage(address))
    ensures var r := S.RunJobs(cfg, z, size, s, [j]);
      && z.page > 0 && r.sent == s.sent + [0xFC, 0x15]
      && var at := address - address % z.page;
      && at + z.page <= |s.mem| && SameElsewhere(s.mem, r.mem, at, z.page)
      && (forall a :: at <= a < at + z.page ==> r.mem[a] == 0xFF)
  {
    hide *;
    StackSizes(cfg, z, size, s);
    var buffer := JobThroughStack(cfg, z, size, s, j, C.ErasePage(address));
    EraseDone(cfg, z, s.mem, address, buffer);
    RemoveElsewhere(s.mem, S.RunJobs(cfg, z, size, s, [j]).mem, address - address % z.page, z.page);
  }

  lemma RemoveElsewhere(mem: seq<u8>, next: seq<u8>, at: nat, n: nat)
    requires SameElsewhere(mem, next, at, n)
    ensures |next| == |mem|
  {
  }

  // ---- attribute slots ---------------------------------------------------------------------------

  /** A slot: the key, the length as given, and the value cut at, or padded with zeros to, 55 bytes. */
  predicate SlotHolds(slot: seq<u8>, key: seq<u8>, value: seq<u8>) {
    && |slot| == 64 && |key| == 8 && slot[0..8] == key && slot[8] == |value|
    && forall i :: 0 <= i < 55 ==> slot[9 + i] == if i < |value| then value[i] else 0
  }

  lemma SlotIs(key: seq<u8>, value: seq<u8>)
    requires |key| == 8 && |value| < 256
    ensures SlotHolds(AttributeSlot(key, value), key, value)
    ensures |AttributeSlot(key, value)| == 64
    ensures |value| <= 55 ==>
      R.Accepted(R.GetAttr(key, value)) && AttributeSlot(key, value) == R.Body(R.GetAttr(key, value))
  {
    if |value| <= 55 {
      SlotIsBody(key, value);
    }
  }

  lemma SetDone(cfg: Config, z: Sizes, mem: seq<u8>, index: u8, key: seq<u8>, value: seq<u8>, buffer: seq<u8>)
    requires var c := C.SetAttr(index, key, value);
      ValidSizes(z, |mem|) && C.WellFormed(c) && Serviceable(cfg, z, |mem|, c) && |buffer| == z.buffer
    ensures var c := C.SetAttr(index, key, value);
      var (at, next) := (cfg.attributesAddress + 64 * (index as int), NextMem(cfg, z, mem, c));
      && at + 64 <= |mem| && SlotHolds(next[at..at + 64], key, value) && SameElsewhere(mem, next, at, 64)
      && (|value| <= 55 ==> next[at..at + 64] == R.Body(R.GetAttr(key, value)))
      && Reply(cfg, z, mem, c, buffer) == [0xFC, 0x15]
  {
    R.BareWire(R.Okay);
    hide R.Wire, AttributeSlot, R.Body;
    SlotIs(key, value);
    SlotPlace(cfg, index);
    hide SlotHolds, AttributeAddress;
    var at, next := cfg.attributesAddress + 64 * (index as int), NextMem(cfg, z, mem, C.SetAttr(index, key, value));
    assert next == Splice(mem, at, AttributeSlot(key, value));
    assert next[at..at + 64] == AttributeSlot(key, value);
  }

  /** SetAttr through the whole stack: slot `index` of 64 bytes is set, and nothing else. */
  lemma SetThroughStack(cfg: Config, z: Sizes, size: nat, s: S.Stack, j: S.Job, index: u8, key: seq<u8>,
      value: seq<u8>)
    requires S.StackInv(cfg, z, size, s) && Armed(S.Flat(s)) && S.ValidJobs(cfg, z, |s.mem|, [j])
    requires Asks(z, j, C.SetAttr(index, key, value))
    ensures var (r, at) := (S.RunJobs(cfg, z, size, s, [j]), cfg.attributesAddress + 64 * (index as int));
      && r.sent == s.sent + [0xFC, 0x15] && |key| == 8
      && at + 64 <= |s.mem| == |r.mem| && SlotHolds(r.mem[at..at + 64], key, value)
      && SameElsewhere(s.mem, r.mem, at, 64)
  {
    hide *;
    StackSizes(cfg, z, size, s);
    var c := C.SetAttr(index, key, value);
    var buffer := JobThroughStack(cfg, z, size, s, j, c);
    SetDone(cfg, z, s.mem, index, key, value, buffer);
    var at := cfg.attributesAddress + 64 * (index as int);
    RemoveElsewhere(s.mem, NextMem(cfg, z, s.mem, c), at, 64);
    KeyOf(NextMem(cfg, z, s.mem, c)[at..at + 64], key, value);
  }

  lemma KeyOf(slot: seq<u8>, key: seq<u8>, value: seq<u8>)
    requires SlotHolds(slot, key, value)
    ensures |key| == 8
  {
  }

  lemma GetDone(cfg: Config, z: Sizes, mem: seq<u8>, index: u8, buffer: seq<u8>)
    requires ValidSizes(z, |mem|) && Serviceable(cfg, z, |mem|, C.GetAttr(index)) && |buffer| == z.buffer
    ensures var at := cfg.attributesAddress + 64 * (index as int);
      at + 64 <= |mem| && Reply(cfg, z, mem, C.GetAttr(index), buffer) == [0xFC, 0x22] + Escape(mem[at..at + 64])
  {
    SlotPlace(cfg, index);
  }

  /** GetAttr through the whole stack: the 64 bytes of slot `index` are answered, escaped. */
  lemma GetThroughStack(cfg: Config, z: Sizes, size: nat, s: S.Stack, j: S.Job, index: u8)
    requires S.StackInv(cfg, z, size, s) && Armed(S.Flat(s)) && S.ValidJobs(cfg, z, |s.mem|, [j])
    requires Asks(z, j, C.GetAttr(index))
    ensures var (r, at) := (S.RunJobs(cfg, z, size, s, [j]), cfg.attributesAddress + 64 * (index as int));
      at + 64 <= |s.mem| && r.mem == s.mem && r.sent == s.sent + ([0xFC, 0x22] + Escape(s.mem[at..at + 64]))
  {
    hide *;
    StackSizes(cfg, z, size, s);
    var buffer := JobThroughStack(cfg, z, size, s, j, C.GetAttr(index));
    GetDone(cfg, z, s.mem, index, buffer);
    ReadsOnly(cfg, z, s.mem, C.GetAttr(index));
  }

  lemma ReadsOnly(cfg: Config, z: Sizes, mem: seq<u8>, c: C.Command)
    requires ValidSizes(z, |mem|) && C.WellFormed(c) && Serviceable(cfg, z, |mem|, c)
    requires !c.WritePage? && !c.ErasePage? && !c.SetAttr? && !c.SetStartAddress?
    ensures NextMem(cfg, z, mem, c) == mem
  {
  }

  lemma KeptSlotReads(cfg: Config, z: Sizes, mem: seq<u8>, first: S.Job, c: C.Command, others: seq<S.Job>)
    returns (at: nat)
    requires ValidSizes(z, |mem|) && S.ValidJobs(cfg, z, |mem|, [first] + others)
    requires Asks(z, first, c) && c.SetAttr? && |c.key| == 8 && |c.value| <= 55 && S.ValidJobs(cfg, z, |mem|, others)
    requires AllSpare(cfg, z, others, cfg.attributesAddress + 64 * (c.index as int), 64)
    ensures at == cfg.attributesAddress + 64 * (c.index as int) && at + 64 <= |mem| <= 0x1_0000_0000
    ensures R.Accepted(R.GetAttr(c.key, c.value))
    ensures S.MemAfter(cfg, z, mem, [first] + others)[at..at + 64] == R.Body(R.GetAttr(c.key, c.value))
    ensures |R.Body(R.GetAttr(c.key, c.value))| == 64
  {
    hide *;
    at := AttributeAddress(cfg, c.index);
    var slot := AttributeSlot(c.key, c.value);
    SetsThis(cfg, c);
    SizeFits(z, |mem|);
    SlotPlace(cfg, c.index);
    SlotIs(c.key, c.value);
    SlotKept(cfg, z, mem, first, c, others, at, slot);
  }

  /** SetAttr, anything that spares the slot, ReadRange of the slot's 64 bytes: the host's decoder delivers the key, the
      length and the padded value. */
  lemma SlotThroughRange(cfg: Config, z: Sizes, size: nat, s: S.Stack, first: S.Job, c: C.Command,
      others: seq<S.Job>, last: S.Job, q: C.Command, d: RD.Decoder)
    returns (earlier: seq<u8>, reply: seq<u8>)
    requires S.StackInv(cfg, z, size, s) && Armed(S.Flat(s)) && RT.Idle(d)
    requires S.ValidJobs(cfg, z, |s.mem|, [first] + others + [last])
    requires Asks(z, first, c) && c.SetAttr? && |c.key| == 8 && |c.value| <= 55 && Asks(z, last, q)
    requires q.ReadRange? && q.address == cfg.attributesAddress + 64 * (c.index as int) && q.length == 64
    requires AllSpare(cfg, z, others, cfg.attributesAddress + 64 * (c.index as int), 64)
    ensures S.RunJobs(cfg, z, size, s, [first] + others + [last]).sent == s.sent + (earlier + reply)
    ensures var answer := R.ReadRange(R.Body(R.GetAttr(c.key, c.value)));
      RT.ArrivesAs(RT.Prepare(d, answer), reply, RD.Got(answer))
  {
    hide *;
    StackSizes(cfg, z, size, s);
    PartsValid(cfg, z, |s.mem|, first, others, last);
    var buffer: seq<u8>;
    earlier, buffer := LastCommandReply(cfg, z, size, s, [first] + others, last, q);
    var after := S.MemAfter(cfg, z, s.mem, [first] + others);
    reply := Reply(cfg, z, after, q, buffer);
    var at := KeptSlotReads(cfg, z, s.mem, first, c, others);
    assert q == C.ReadRange(at, 64);
    RangeAnswers(cfg, z, after, at, R.Body(R.GetAttr(c.key, c.value)), d, buffer);
  }

  // ---- values that are too long ------------------------------------------------------------------

  /** Bytes of the decoder's buffer that a body does not reach stay as they are. */
  lemma {:induction false} BeyondStays(d: RD.Decoder, p: seq<u8>, k: nat)
    requires RD.ValidDecoder(d) && d.state == RD.Loading && d.count + |p| <= k < RD.BUFFER_LEN
    requires d.needed.Some? ==> d.count + |p| <= d.needed.value
    ensures RT.After(d, Escape(p)).buffer[k] == d.buffer[k]
    decreases |p|
  {
    if p != [] {
      var d1 := RD.LoadChar(d, p[0]).0;
      RT.FeedEscapedByte(d, p[0]);
      RT.FeedConcat(d, EscapeByte(p[0]), Escape(p[1..]));
      if p[1..] != [] {
        BeyondStays(d1, p[1..], k);
      } else {
        assert Escape(p[1..]) == [];
      }
    }
  }

  /** What the host's decoder makes of a slot's 64 bytes: with a length of 56 it takes a byte it has not received. */
  function SlotMeans(key: seq<u8>, value: seq<u8>, beyond: u8): RD.Answer
    requires |key| == 8 && |value| < 256
  {
    if |value| <= 55 then RD.Got(R.GetAttr(key, value))
    else if |value| == 56 then RD.Got(R.GetAttr(key, value[..55] + [beyond]))
    else RD.Failed(BadArguments)
  }

  lemma SlotInterpreted(buffer: seq<u8>, slot: seq<u8>, key: seq<u8>, value: seq<u8>)
    requires |buffer| == RD.BUFFER_LEN && SlotHolds(slot, key, value) && |value| < 256
    requires buffer[..65] == [R.RES_GATTR] + slot
    ensures RD.Interpret(buffer, 65) == SlotMeans(key, value, buffer[65])
  {
    RT.FirstByte(buffer, R.RES_GATTR, slot);
    assert buffer[1..9] == slot[0..8] && buffer[9] == slot[8] as int;
    forall k | 10 <= k < 65 ensures buffer[k] == slot[k - 1] {
      assert buffer[1..65][k - 1] == buffer[k];
    }
    var n := |value|;
    if n <= 55 {
      assert buffer[10..10 + n] == value;
    } else if n == 56 {
      assert buffer[10..66] == value[..55] + [buffer[65]];
    }
  }

  lemma SlotDelivered(d: RD.Decoder, slot: seq<u8>, key: seq<u8>, value: seq<u8>)
    requires RT.Idle(d) && SlotHolds(slot, key, value) && |value| < 256
    ensures RT.ArrivesAs(d, [0xFC, 0x22] + Escape(slot), SlotMeans(key, value, d.buffer[65]))
  {
    var header: seq<u8> := [0xFC, 0x22];
    var d1 := RT.HeaderSet(d, R.RES_GATTR, 64);
    RT.FeedTwo(d, ESCAPE_CHAR, R.RES_GATTR);
    assert d1.buffer[65] == d.buffer[65];
    var answer := RT.FeedBody(d1, slot, 65);
    var buffer := RT.After(d1, Escape(slot)).buffer;
    BeyondStays(d1, slot, 65);
    SlotInterpreted(buffer, slot, key, value);
    hide Escape, RT.Answers, RT.After, RD.Interpret, SlotMeans, SlotHolds;
    RT.AfterHeader(d, header, Escape(slot), answer);
  }

  lemma LongSlotKept(cfg: Config, z: Sizes, mem: seq<u8>, first: S.Job, c: C.Command, others: seq<S.Job>)
    requires ValidSizes(z, |mem|) && S.ValidJobs(cfg, z, |mem|, [first] + others)
    requires Asks(z, first, c) && c.SetAttr? && |c.key| == 8 && |c.value| < 256 && S.ValidJobs(cfg, z, |mem|, others)
    requires AllSpare(cfg, z, others, cfg.attributesAddress + 64 * (c.index as int), 64)
    ensures var at := cfg.attributesAddress + 64 * (c.index as int);
      at + 64 <= |mem| && SlotHolds(S.MemAfter(cfg, z, mem, [first] + others)[at..at + 64], c.key, c.value)
  {
    hide *;
    var at, slot := AttributeAddress(cfg, c.index), AttributeSlot(c.key, c.value);
    SetsThis(cfg, c);
    SlotPlace(cfg, c.index);
    SlotIs(c.key, c.value);
    SlotKept(cfg, z, mem, first, c, others, at, slot);
  }

  /** SetAttr with a value of any length that its length byte can tell, anything that spares the slot, GetAttr: the
      host's decoder always delivers what was set if and only if the value has at most 55 bytes, as the encoder demands.
      It refuses longer ones, except that one of 56 bytes comes back with a byte that was never sent. */
  lemma AnyAttributeThroughStack(cfg: Config, z: Sizes, size: nat, s: S.Stack, first: S.Job, c: C.Command,
      others: seq<S.Job>, last: S.Job)
    returns (earlier: seq<u8>, reply: seq<u8>)
    requires S.StackInv(cfg, z, size, s) && Armed(S.Flat(s))
    requires S.ValidJobs(cfg, z, |s.mem|, [first] + others + [last])
    requires Asks(z, first, c) && c.SetAttr? && |c.key| == 8 && |c.value| < 256 && Asks(z, last, C.GetAttr(c.index))
    requires AllSpare(cfg, z, others, cfg.attributesAddress + 64 * (c.index as int), 64)
    ensures S.RunJobs(cfg, z, size, s, [first] + others + [last]).sent == s.sent + (earlier + reply)
    ensures forall d: RD.Decoder | RT.Idle(d) :: RT.ArrivesAs(d, reply, SlotMeans(c.key, c.value, d.buffer[65]))
    ensures (forall d: RD.Decoder | RT.Idle(d) :: RT.ArrivesAs(d, reply, RD.Got(R.GetAttr(c.key, c.value))))
      <==> |c.value| <= 55
    ensures C.Accepted(c) <==> c.index <= 16 && |c.value| <= 55
  {
    hide *;
    EncoderAccepts(c);
    StackSizes(cfg, z, size, s);
    PartsValid(cfg, z, |s.mem|, first, others, last);
    var buffer: seq<u8>;
    earlier, buffer := LastCommandReply(cfg, z, size, s, [first] + others, last, C.GetAttr(c.index));
    var after := S.MemAfter(cfg, z, s.mem, [first] + others);
    reply := Reply(cfg, z, after, C.GetAttr(c.index), buffer);
    LongSlotKept(cfg, z, s.mem, first, c, others);
    GetDone(cfg, z, after, c.index, buffer);
    var at := cfg.attributesAddress + 64 * (c.index as int);
    AlwaysDelivered(reply, after[at..at + 64], c.key, c.value);
    AlwaysMeantIff(reply, c.key, c.value);
  }

  lemma EncoderAccepts(c: C.Command)
    requires c.SetAttr? && |c.key| == 8
    ensures C.Accepted(c) <==> c.index <= 16 && |c.value| <= 55
  {
  }

  lemma AlwaysDelivered(reply: seq<u8>, slot: seq<u8>, key: seq<u8>, value: seq<u8>)
    requires SlotHolds(slot, key, value) && |key| == 8 && |value| < 256 && reply == [0xFC, 0x22] + Escape(slot)
    ensures forall d: RD.Decoder | RT.Idle(d) :: RT.ArrivesAs(d, reply, SlotMeans(key, value, d.buffer[65]))
  {
    hide RT.ArrivesAs, SlotMeans, SlotHolds, Escape;
    forall d: RD.Decoder | RT.Idle(d) ensures RT.ArrivesAs(d, reply, SlotMeans(key, value, d.buffer[65])) {
      SlotDelivered(d, slot, key, value);
    }
  }

  lemma AlwaysMeantIff(reply: seq<u8>, key: seq<u8>, value: seq<u8>)
    requires |key| == 8 && |value| < 256
    requires forall d: RD.Decoder | RT.Idle(d) :: RT.ArrivesAs(d, reply, SlotMeans(key, value, d.buffer[65]))
    ensures (forall d: RD.Decoder | RT.Idle(d) :: RT.ArrivesAs(d, reply, RD.Got(R.GetAttr(key, value))))
      <==> |value| <= 55
  {
    if |value| > 55 {
      var beyond: u8 := if value[55] == 0 then 1 else 0;
      var d := RD.Decoder(RD.Loading, seq(RD.BUFFER_LEN, _ => beyond), 0, None);
      assert RT.Idle(d) && d.buffer[65] == beyond;
      OneLastAnswer(d, reply, SlotMeans(key, value, beyond), RD.Got(R.GetAttr(key, value)));
      if |value| == 56 {
        assert (value[..55] + [beyond])[55] != value[55];
      }
    }
  }

  lemma OneLastAnswer(d: RD.Decoder, bytes: seq<u8>, a: RD.Answer, b: RD.Answer)
    requires RD.ValidDecoder(d) && RT.ArrivesAs(d, bytes, a)
    ensures RT.ArrivesAs(d, bytes, b) ==> a == b
  {
    hide RT.Answers;
    assert RT.Answers(d, bytes)[|bytes| - 1] == a;
  }

  // ---- refusals -------------------------------------------------------------------------------

  lemma RefusalDone(cfg: Config, z: Sizes, mem: seq<u8>, a: Action, buffer: seq<u8>)
    requires ValidSizes(z, |mem|) && Manageable(cfg, z, |mem|, a) && |buffer| == z.buffer
    requires a == Reject(BadArguments)
    ensures MemOn(cfg, z, mem, a) == mem && ReplyOn(cfg, z, mem, a, buffer) == [0xFC, 0x14]
  {
    R.BareWire(R.BadArguments);
    hide R.Wire;
  }

  lemma OneJobDone(cfg: Config, z: Sizes, mem: seq<u8>, before: seq<u8>, j: S.Job)
    requires ValidSizes(z, |mem|) && S.ValidJobs(cfg, z, |mem|, [j]) && |before| == z.buffer
    ensures Manageable(cfg, z, |mem|, S.Asked(z, j))
    ensures S.MemAfter(cfg, z, mem, [j]) == MemOn(cfg, z, mem, S.Asked(z, j))
    ensures Flatten(S.Replies(cfg, z, mem, before, [j])) == ReplyOn(cfg, z, mem, S.Asked(z, j), S.Arrived(before, j))
  {
    var jobs := [j];
    assert S.ValidJob(cfg, z, |mem|, jobs[0]) && jobs[1..] == [];
    hide S.Asked, MemOn, ReplyOn, BufferOn, S.Arrived, Manageable;
    var next, reply := MemOn(cfg, z, mem, S.Asked(z, j)), ReplyOn(cfg, z, mem, S.Asked(z, j), S.Arrived(before, j));
    assert S.MemAfter(cfg, z, next, []) == next;
    assert S.Replies(cfg, z, mem, before, [j]) == [reply];
    FlattenFirst(reply, []);
    FlattenNone();
    assert [reply] + [] == [reply] && reply + [] == reply;
  }

  /** Through the whole stack: a transfer that begins with a bad packet is answered with bad arguments and changes
      nothing, whatever follows the packet. */
  lemma BadPacketThroughStack(cfg: Config, z: Sizes, size: nat, s: S.Stack, j: S.Job, p: seq<u8>, code: u8,
      rest: seq<u8>)
    requires S.StackInv(cfg, z, size, s) && Armed(S.Flat(s)) && S.ValidJobs(cfg, z, |s.mem|, [j])
    requires T.BadPacket(code, p) && |p| <= 4224 && S.Text(j) == CommandFrame(p, code) + rest && |S.Text(j)| <= z.buffer
    ensures var r := S.RunJobs(cfg, z, size, s, [j]); r.mem == s.mem && r.sent == s.sent + [0xFC, 0x14]
  {
    hide *;
    StackSizes(cfg, z, size, s);
    HeardAll(z, j);
    BadPacketRejected(p, code, rest);
    S.StackRefines(cfg, z, size, s, [j]);
    OneJobDone(cfg, z, s.mem, s.m.line.buffer, j);
    RefusalDone(cfg, z, s.mem, S.Asked(z, j), S.Arrived(s.m.line.buffer, j));
  }

  lemma HeardAll(z: Sizes, j: S.Job)
    requires |S.Text(j)| <= z.buffer
    ensures S.Asked(z, j) == FirstAction(D.START, S.Text(j))
  {
    assert S.Heard(z, j) == S.Text(j);
  }

  // ---- commands without a reply of their own -----------------------------------------------------

  /** The commands that neither carry data back nor change a page or a slot, and what they are answered with. */
  function BareReply(c: C.Command): Option<seq<u8>> {
    match c
    case Ping => Some([0xFC, 0x11])
    case Reset => Some([])
    case Exit => Some([])
    case SetStartAddress(_) => Some([0xFC, 0x15])
    case Info => None
    case ErasePage(_) => None
    case WritePage(_, _) => None
    case ReadRange(_, _) => None
    case CrcIntFlash(_, _) => None
    case GetAttr(_) => None
    case SetAttr(_, _, _) => None
    case _ => Some([0xFC, 0x16])
  }

  lemma BareDone(cfg: Config, z: Sizes, mem: seq<u8>, c: C.Command, buffer: seq<u8>)
    requires ValidSizes(z, |mem|) && C.WellFormed(c) && Serviceable(cfg, z, |mem|, c) && |buffer| == z.buffer
    requires BareReply(c).Some?
    ensures Reply(cfg, z, mem, c, buffer) == BareReply(c).value
    ensures !c.SetStartAddress? ==> NextMem(cfg, z, mem, c) == mem
    ensures c.SetStartAddress? ==>
      var (at, next) := (cfg.flagsAddress + 32, NextMem(cfg, z, mem, c));
      && at + 4 <= |mem| && SameElsewhere(mem, next, at, 4)
      && LittleWord(next, at) == c.address
  {
    R.BareWire(R.Pong);
    R.BareWire(R.Okay);
    R.BareWire(R.Unknown);
    hide R.Wire;
    if c.SetStartAddress? {
      LeU32RoundTrip(c.address, [0, 0, 0, 0]);
      hide LeU32;
      var next, at := NextMem(cfg, z, mem, c), cfg.flagsAddress + 32;
      assert next[at..at + 4] == LeU32(c.address);
    }
  }

  /** Through the whole stack: the start address goes, least significant byte first, to byte 32 of the flags, and the
      rest change nothing. */
  lemma BareThroughStack(cfg: Config, z: Sizes, size: nat, s: S.Stack, j: S.Job, c: C.Command)
    requires S.StackInv(cfg, z, size, s) && Armed(S.Flat(s)) && S.ValidJobs(cfg, z, |s.mem|, [j]) && Asks(z, j, c)
    requires BareReply(c).Some?
    ensures var r := S.RunJobs(cfg, z, size, s, [j]);
      && r.sent == s.sent + BareReply(c).value && |r.mem| == |s.mem|
      && (!c.SetStartAddress? ==> r.mem == s.mem)
      && (c.SetStartAddress? ==>
            var at := cfg.flagsAddress + 32;
            && at + 4 <= |s.mem| && SameElsewhere(s.mem, r.mem, at, 4)
            && LittleWord(r.mem, at) == c.address)
  {
    hide *;
    StackSizes(cfg, z, size, s);
    var buffer := JobThroughStack(cfg, z, size, s, j, c);
    BareDone(cfg, z, s.mem, c, buffer);
  }
}
