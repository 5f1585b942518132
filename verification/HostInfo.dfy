/** The information reply through the whole stack: when the host gets it, and the start address it shows. */
module HostInfo {
  import opened Bytes
  import opened Framing
  import opened BootloaderMachine
  import opened BootloaderRuns
  import opened BootloaderCommands
  import opened Host
  import opened InfoText
  import S = Stack
  import C = Commands
  import R = Responses
  import RD = ResponseDecoding
  import RT = ResponseRoundTrip
  import RL = ResponseLoss
  import U = UartReassembly

  /** The byte behind the text is the job's own if its transfer reaches so far, and an earlier command's otherwise. */
  function LastByte(cfg: Config, mem: seq<u8>, before: seq<u8>, j: S.Job): u8
    requires cfg.flagsAddress + 36 <= |mem| && |before| >= INFO_LEN
  {
    var k := 73 + |Version(mem[cfg.flagsAddress + 14..cfg.flagsAddress + 22])|;
    if k < |S.Text(j)| then S.Text(j)[k] else before[k]
  }

  /** The same after some jobs. */
  function LastByteAfter(cfg: Config, z: Sizes, mem: seq<u8>, before: seq<u8>, jobs: seq<S.Job>, last: S.Job): u8
    requires ValidSizes(z, |mem|) && S.ValidJobs(cfg, z, |mem|, jobs) && |before| == z.buffer >= INFO_LEN
    requires cfg.flagsAddress + 36 <= |mem|
  {
    LastByte(cfg, S.MemAfter(cfg, z, mem, jobs), S.BufferAfter(cfg, z, mem, before, jobs), last)
  }

  lemma LeftOverIs(cfg: Config, mem: seq<u8>, before: seq<u8>, j: S.Job)
    requires cfg.flagsAddress + 36 <= |mem| && |before| >= INFO_LEN
    ensures var k := 73 + |Version(mem[cfg.flagsAddress + 14..cfg.flagsAddress + 22])|;
      && S.Arrived(before, j)[k] == LastByte(cfg, mem, before, j)
      && LeftOver(cfg, mem, S.Arrived(before, j)) == LastByte(cfg, mem, before, j)
  {
    FlagsAre(cfg, mem);
    hide FlagsOf;
    OverwrittenAt(before, S.Text(j), 3 + |InfoJson(FlagsOf(cfg, mem))|);
  }

  /** After any jobs, an Info command: the host's decoder delivers the text that shows the version and the start address
      in the flags if and only if neither the version nor the byte behind the text is the escape byte; the transfer of
      the command decides that byte if it is long enough. */
  lemma InfoThroughStack(cfg: Config, z: Sizes, size: nat, s: S.Stack, jobs: seq<S.Job>, last: S.Job, d: RD.Decoder)
    returns (earlier: seq<u8>, reply: seq<u8>, text: seq<u8>)
    requires S.StackInv(cfg, z, size, s) && Armed(S.Flat(s)) && RT.Idle(d)
    requires S.ValidJobs(cfg, z, |s.mem|, jobs + [last]) && S.ValidJobs(cfg, z, |s.mem|, jobs)
    requires Asks(z, last, C.Info)
    ensures S.RunJobs(cfg, z, size, s, jobs + [last]).sent == s.sent + (earlier + reply)
    ensures cfg.flagsAddress + 36 <= |s.mem| && |s.m.line.buffer| == z.buffer >= INFO_LEN
    ensures var (mem, at) := (S.MemAfter(cfg, z, s.mem, jobs), cfg.flagsAddress);
      var version := Version(mem[at + 14..at + 22]);
      && text == InfoJson(FlagsOf(cfg, mem))
      && Shows(text, version, ReadU32(mem[at + 32..at + 36]))
      && (RD.Got(R.Info(text)) in RT.Answers(d, reply)
          <==> ESCAPE_CHAR !in version
               && LastByteAfter(cfg, z, s.mem, s.m.line.buffer, jobs, last) != ESCAPE_CHAR)
  {
    hide *;
    StackSizes(cfg, z, size, s);
    var buffer: seq<u8>;
    earlier, buffer := LastCommandReply(cfg, z, size, s, jobs, last, C.Info);
    InfoFits(cfg, z, |s.mem|);
    var mem := S.MemAfter(cfg, z, s.mem, jobs);
    var before := S.BufferAfter(cfg, z, s.mem, s.m.line.buffer, jobs);
    reply := Reply(cfg, z, mem, C.Info, buffer);
    text := InfoJson(FlagsOf(cfg, mem));
    InfoReplyArrivesIff(d, cfg, z, mem, buffer);
    LeftOverIs(cfg, mem, before, last);
    LastByteAfterIs(cfg, z, s.mem, s.m.line.buffer, jobs, last);
  }

  lemma LastByteAfterIs(cfg: Config, z: Sizes, mem: seq<u8>, before: seq<u8>, jobs: seq<S.Job>, last: S.Job)
    requires ValidSizes(z, |mem|) && S.ValidJobs(cfg, z, |mem|, jobs) && |before| == z.buffer >= INFO_LEN
    requires cfg.flagsAddress + 36 <= |mem|
    ensures LastByteAfter(cfg, z, mem, before, jobs, last)
      == LastByte(cfg, S.MemAfter(cfg, z, mem, jobs), S.BufferAfter(cfg, z, mem, before, jobs), last)
  {
  }

  lemma StackSizes(cfg: Config, z: Sizes, size: nat, s: S.Stack)
    requires S.StackInv(cfg, z, size, s) && Armed(S.Flat(s))
    ensures ValidSizes(z, |s.mem|) && z.page > 0 && s.m.line.Listening? && |s.m.line.buffer| == z.buffer
  {
  }


  /** An Info command with 72 bytes behind it in the same transfer, the last of them the escape byte. */
  function LosingJob(): S.Job {
    var rest: seq<u8> := seq(71, _ => 0) + [ESCAPE_CHAR];
    S.Job([], U.Fragment(C.Wire(C.Info) + rest, U.Cancelled))
  }

  lemma LosingJobIsValid(cfg: Config, z: Sizes, size: nat)
    requires z.page > 0 && Serviceable(cfg, z, size, C.Info)
    ensures S.ValidJob(cfg, z, size, LosingJob()) && Asks(z, LosingJob(), C.Info)
    ensures |S.Text(LosingJob())| == 74 && S.Text(LosingJob())[73] == ESCAPE_CHAR
  {
    var j: S.Job, rest: seq<u8> := LosingJob(), seq(71, _ => 0) + [ESCAPE_CHAR];
    assert C.Wire(C.Info) == [ESCAPE_CHAR, C.CMD_INFO];
    assert S.Text(j) == C.Wire(C.Info) + rest by { assert U.Contents(j.frags) == []; }
    assert Resets(0) + C.Wire(C.Info) + rest == C.Wire(C.Info) + rest;
    S.EncodedIsAsked(z, j, 0, C.Info, rest);
  }

  lemma LosingReply(cfg: Config, z: Sizes, mem: seq<u8>, buffer: seq<u8>)
    requires ValidSizes(z, |mem|) && Serviceable(cfg, z, |mem|, C.Info) && |buffer| == z.buffer
    requires FlagsOf(cfg, mem)[14] == 0 && S.ValidJobs(cfg, z, |mem|, [LosingJob()])
    requires Asks(z, LosingJob(), C.Info)
    ensures Flatten(S.Replies(cfg, z, mem, buffer, [LosingJob()])) == InfoReply(FlagsOf(cfg, mem), ESCAPE_CHAR)
  {
    hide InfoJson, InfoReply, S.Text, S.ValidJob, S.Arrived, S.Asked;
    var flags := FlagsOf(cfg, mem);
    LosingJobIsValid(cfg, z, |mem|);
    LeftOverIs(cfg, mem, buffer, LosingJob());
    assert flags[14..22][0] == flags[14];
    assert |InfoJson(flags)| == 70;
    var reply := InfoReply(flags, ESCAPE_CHAR);
    assert S.Replies(cfg, z, mem, buffer, [LosingJob()]) == [reply];
    FlattenFirst(reply, []);
    FlattenNone();
    assert [reply] + [] == [reply] && reply + [] == reply;
  }

  /** A reply that is lost: no version is stored and the transfer puts the escape byte just behind where the text
      ends. From start-up on, the host gets no information text of more than 63 bytes for it, and so not this one. */
  lemma InfoReplyLost(cfg: Config, z: Sizes, buffer: seq<u8>, page: seq<u8>, largePage: seq<u8>, size: nat,
      mem: seq<u8>, d: RD.Decoder)
    requires ValidSizes(z, |mem|) && z.page == 512 && |mem| % 4096 == 0 && Serviceable(cfg, z, |mem|, C.Info)
    requires |buffer| == z.buffer && |page| == 512 && |largePage| == 4096 && RT.Idle(d)
    requires FlagsOf(cfg, mem)[14] == 0
    ensures S.ValidJobs(cfg, z, |mem|, [LosingJob()])
    ensures var s := S.Boot(buffer, page, largePage, size, mem);
      && S.StackInv(cfg, z, size, s) && Armed(S.Flat(s))
      && var reply := S.RunJobs(cfg, z, size, s, [LosingJob()]).sent;
      && (forall text :: RD.Got(R.Info(text)) in RT.Answers(d, reply) ==> |text| < 64)
      && RD.Got(R.Info(InfoJson(FlagsOf(cfg, mem)))) !in RT.Answers(d, reply)
  {
    hide S.RunJobs, S.ValidJob, S.StackInv, S.Boot, S.Replies, InfoJson, RT.Answers, LosingJob, InfoReply, InfoBody;
    LosingJobIsValid(cfg, z, |mem|);
    S.BootRefines(cfg, z, buffer, page, largePage, size, mem, [LosingJob()]);
    LosingReply(cfg, z, mem, buffer);
    PlainInfo(FlagsOf(cfg, mem), ESCAPE_CHAR);
    RL.UnescapedLost(d, R.RES_INFO, InfoBody(FlagsOf(cfg, mem), ESCAPE_CHAR));
  }

  // ---- the start address ------------------------------------------------------------------

  lemma TextAfter(cfg: Config, z: Sizes, mem: seq<u8>, first: S.Job, address: u32, others: seq<S.Job>)
    requires ValidSizes(z, |mem|) && S.ValidJobs(cfg, z, |mem|, [first] + others)
    requires S.ValidJobs(cfg, z, |mem|, others) && Asks(z, first, C.SetStartAddress(address))
    requires cfg.flagsAddress + 36 <= |mem| && AllSpare(cfg, z, others, cfg.flagsAddress, 36)
    ensures var (after, at) := (S.MemAfter(cfg, z, mem, [first] + others), cfg.flagsAddress);
      && Version(after[at + 14..at + 22]) == Version(mem[at + 14..at + 22])
      && Shows(InfoJson(FlagsOf(cfg, after)), Version(mem[at + 14..at + 22]), address)
  {
    assert ([first] + others)[0] == first;
    hide S.ValidJob, S.MemAfter, S.Asked, NextMem, AllSpare, Shows, Version, InfoJson;
    FirstKept(cfg, z, mem, first, C.SetStartAddress(address), others, cfg.flagsAddress, 36);
    StartAddressShown(cfg, z, mem, address);
    FlagsAre(cfg, S.MemAfter(cfg, z, mem, [first] + others));
  }

  /** SetStartAddress, anything that spares the flags, Info: under the same condition the host's decoder delivers the
      text that shows the version as it was and the address that was set. */
  lemma StartAddressThroughStack(
      cfg: Config, z: Sizes, size: nat, s: S.Stack, first: S.Job, address: u32, others: seq<S.Job>, last: S.Job,
      d: RD.Decoder)
    returns (earlier: seq<u8>, reply: seq<u8>, text: seq<u8>)
    requires S.StackInv(cfg, z, size, s) && Armed(S.Flat(s)) && RT.Idle(d)
    requires S.ValidJobs(cfg, z, |s.mem|, [first] + others + [last])
    requires S.ValidJobs(cfg, z, |s.mem|, [first] + others) && S.ValidJobs(cfg, z, |s.mem|, others)
    requires Asks(z, first, C.SetStartAddress(address)) && Asks(z, last, C.Info)
    requires AllSpare(cfg, z, others, cfg.flagsAddress, 36)
    ensures S.RunJobs(cfg, z, size, s, [first] + others + [last]).sent == s.sent + (earlier + reply)
    ensures cfg.flagsAddress + 36 <= |s.mem| && |s.m.line.buffer| == z.buffer >= INFO_LEN
    ensures var version := Version(s.mem[cfg.flagsAddress + 14..cfg.flagsAddress + 22]);
      && Shows(text, version, address)
      && (RD.Got(R.Info(text)) in RT.Answers(d, reply)
          <==> ESCAPE_CHAR !in version
               && LastByteAfter(cfg, z, s.mem, s.m.line.buffer, [first] + others, last) != ESCAPE_CHAR)
  {
    hide *;
    StackSizes(cfg, z, size, s);
    PartsValid(cfg, z, |s.mem|, first, others, last);
    earlier, reply, text := InfoThroughStack(cfg, z, size, s, [first] + others, last, d);
    TextAfter(cfg, z, s.mem, first, address, others);
  }
}
