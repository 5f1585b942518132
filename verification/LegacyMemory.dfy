/** What the polling bootloader refuses, and which bytes of the flash its commands can reach, by number. */
module LegacyMemory {
  import opened Bytes
  import opened Framing
  import opened R = Responses
  import opened LegacyMachine
  import opened LegacyRuns
  import opened LegacyBaud
  import opened LegacyService
  import C = Commands
  import Crc

  // ---- refusals ---------------------------------------------------------------------------

  /** Outside a page of the application, or not at its beginning. */
  predicate NotAPage(address: u32) {
    address < 65280 || address >= 524287 || address % 512 != 0
  }

  /** The response code a command is refused with, given what came before it: 0x14 for bad arguments, 0x12 for a bad
      address, 0x16 for an unknown command. */
  function Refusal(rx: seq<u8>, n: nat, code: u8): Option<u8>
    requires |rx| == 8192
  {
    match code
    case 0x01 => None
    case 0x03 => None
    case 0x04 => None
    case 0x05 => None
    case 0x06 => if n != 4 then Some(0x14) else if NotAPage(LittleWord(rx, 0)) then Some(0x12) else None
    case 0x07 => if n != 516 then Some(0x14) else if NotAPage(LittleWord(rx, 0)) then Some(0x12) else None
    case 0x10 => None
    case 0x11 =>
      if n != 6 || rx[5] >= 16 then Some(0x14)
      else if (LittleWord(rx, 0) + LittleHalf(rx, 4)) % 0x1_0000_0000 > 524288 then Some(0x12)
      else None
    case 0x13 =>
      if n != 10 + rx[9] as int then Some(0x14) else if rx[0] >= 16 || rx[9] >= 56 then Some(0x12) else None
    case 0x14 => if n != 1 then Some(0x14) else if rx[0] >= 16 then Some(0x12) else None
    case 0x15 =>
      if n != 8 then Some(0x14)
      else if LittleWord(rx, 0) >= 524287 || (LittleWord(rx, 0) + LittleWord(rx, 4)) % 0x1_0000_0000 > 524288
        || LittleWord(rx, 4) >= 524288 then Some(0x12)
      else None
    case 0x20 => if n != 8 then Some(0x14) else None
    case 0x21 => if n < 5 then Some(0x14) else None
    case _ => Some(0x16)
  }

  /** The code of the response that is staged. */
  function StagedCode(s: Station): Option<u8>
    requires ValidStation(s)
  {
    if s.txLeft >= 2 then Some(s.tx[s.txPtr + 1]) else None
  }

  lemma StageCode(s: Station, dat: seq<u8>, cmd: u8)
    requires ValidStation(s)
    ensures var r := Stage(s, dat, cmd);
      && StagedCode(r) == Some(cmd) && r.flash == s.flash && r.user == s.user
      && (dat == [] ==> LegacyRuns.Staged(r) == [0xFC, cmd])
  {
    hide Escape;
    assert ResponseFrame(cmd, []) == [ESCAPE_CHAR, cmd] by { assert Escape([]) == []; }
  }

  lemma WordIs(s: Station, i: nat)
    requires ValidStation(s) && i + 4 <= 8192
    ensures RxU32(s, i) == LittleWord(s.rx, i)
  {
  }

  lemma HalfIs(s: Station, i: nat)
    requires ValidStation(s) && i + 2 <= 8192
    ensures RxU16(s, i) == LittleHalf(s.rx, i)
  {
  }

  /** What a station does with a command, as far as refusals go. */
  predicate RefusedAs(s: Station, code: u8, r: Station)
    requires ValidStation(s) && ValidStation(r)
  {
    match Refusal(s.rx, s.rxPtr, code)
    case Some(e) => LegacyRuns.Staged(r) == [0xFC, e] && r.flash == s.flash && r.user == s.user
    case None => code == 0x04 || code == 0x05 || StagedCode(r) !in {Some(0x12), Some(0x14), Some(0x16)}
  }

  lemma PagesRefused(env: Env, s: Station, code: u8)
    requires ValidEnv(env) && ValidStation(s) && s.change != Waiting && (code == 0x06 || code == 0x07)
    ensures RefusedAs(s, code, Execute(env, s, code))
  {
    hide Stage, RxU32, Splice;
    WordIs(s, 0);
    forall x: Station, dat: seq<u8>, cmd: u8 | ValidStation(x) ensures StagedCode(Stage(x, dat, cmd)) == Some(cmd) {
      StageCode(x, dat, cmd);
    }
    StageCode(s, [], RES_BADARGS);
    StageCode(s, [], RES_BADADDR);
  }

  lemma RangesRefused(env: Env, s: Station, code: u8)
    requires ValidEnv(env) && ValidStation(s) && s.change != Waiting && (code == 0x11 || code == 0x15)
    ensures RefusedAs(s, code, Execute(env, s, code))
  {
    hide Stage, RxU32, RxU16, BytesAt, Crc.Crc32, Crc.RegisterBytes;
    WordIs(s, 0);
    WordIs(s, 4);
    HalfIs(s, 4);
    forall dat: seq<u8>, cmd: u8 ensures StagedCode(Stage(s, dat, cmd)) == Some(cmd) {
      StageCode(s, dat, cmd);
    }
    StageCode(s, [], RES_BADARGS);
    StageCode(s, [], RES_BADADDR);
  }

  lemma SlotsRefused(env: Env, s: Station, code: u8)
    requires ValidEnv(env) && ValidStation(s) && s.change != Waiting && (code == 0x13 || code == 0x14)
    ensures RefusedAs(s, code, Execute(env, s, code))
  {
    hide Stage, Splice;
    forall x: Station, dat: seq<u8>, cmd: u8 | ValidStation(x) ensures StagedCode(Stage(x, dat, cmd)) == Some(cmd) {
      StageCode(x, dat, cmd);
    }
    StageCode(s, [], RES_BADARGS);
    StageCode(s, [], RES_BADADDR);
  }

  lemma OthersRefused(env: Env, s: Station, code: u8)
    requires ValidEnv(env) && ValidStation(s) && s.change != Waiting
    requires code !in {0x06, 0x07, 0x11, 0x13, 0x14, 0x15}
    ensures RefusedAs(s, code, Execute(env, s, code))
  {
    hide Stage, RxU32, Crc.Crc32, Crc.RegisterBytes;
    forall x: Station, dat: seq<u8>, cmd: u8 | ValidStation(x) ensures StagedCode(Stage(x, dat, cmd)) == Some(cmd) {
      StageCode(x, dat, cmd);
    }
    StageCode(s, [], RES_BADARGS);
    StageCode(s, [], RES_UNKNOWN);
  }

  /** Outside a waiting negotiation a command is refused, with nothing changed, exactly as the table says, whatever the
      receive buffer holds. */
  lemma RefusedIff(env: Env, s: Station, code: u8)
    requires ValidEnv(env) && ValidStation(s) && s.change != Waiting
    ensures RefusedAs(s, code, Execute(env, s, code))
  {
    hide Execute, RefusedAs;
    if code == 0x06 || code == 0x07 {
      PagesRefused(env, s, code);
    } else if code == 0x11 || code == 0x15 {
      RangesRefused(env, s, code);
    } else if code == 0x13 || code == 0x14 {
      SlotsRefused(env, s, code);
    } else {
      OthersRefused(env, s, code);
    }
  }

  /** While a rate waits for its confirmation every other command is answered with its failure alone, and not done. */
  lemma WaitingRefuses(env: Env, s: Station, code: u8)
    requires ValidEnv(env) && ValidStation(s) && s.change == Waiting && code != 0x21
    ensures var r := Execute(env, s, code);
      && LegacyRuns.Staged(r) == [0xFC, 0x26] && r.flash == s.flash && r.user == s.user
      && r.rx == s.rx && r.rxPtr == s.rxPtr
  {
    hide Stage;
    StageCode(s.(change := Resetting), [], RES_CHANGE_BAUD_FAIL);
    AnswerKeeps(s.(change := Resetting), RES_CHANGE_BAUD_FAIL);
  }

  /** What a change-of-rate command is answered with: 0x15 if it proposes a rate outside a negotiation or confirms the
      one in use, 0x26 if the rate is given up, and an error otherwise. */
  function BaudAnswer(s: Station): u8
    requires ValidStation(s)
  {
    if s.rxPtr < 5 then 0x14
    else if s.rxPtr == 5 && s.rx[0] == 0x01 then (if s.change == Idle then 0x15 else 0x13)
    else if s.change != Waiting then 0x13
    else if s.rxPtr == 10 && s.rx[5] == 0x02 && LittleWord(s.rx, 6) == s.baud then 0x15
    else 0x26
  }

  lemma BaudAnswered(env: Env, s: Station)
    requires ValidEnv(env) && ValidStation(s)
    ensures var r := Execute(env, s, 0x21);
      LegacyRuns.Staged(r) == [0xFC, BaudAnswer(s)] && r.flash == s.flash && r.user == s.user
  {
    WordIs(s, 6);
    hide Stage, RxU32;
    forall x: Station, cmd: u8 | ValidStation(x)
      ensures var r := Stage(x, [], cmd);
        LegacyRuns.Staged(r) == [0xFC, cmd] && r.flash == x.flash && r.user == x.user
    {
      StageCode(x, [], cmd);
    }
  }

  /** What was received stays in the buffer, in front of the next packet, until a Reset drops it; the identifier command
      does nothing at all. */
  lemma PacketStays(env: Env, s: Station, code: u8)
    requires ValidEnv(env) && ValidStation(s)
    ensures var r := Execute(env, s, code);
      && r.escape == s.escape && r.rx == s.rx
      && r.rxPtr == (if code == 0x05 && s.change != Waiting then 0 else s.rxPtr)
      && (code == 0x05 && s.change != Waiting ==> r.txLeft == 0)
      && (code == 0x04 && s.change != Waiting ==> r == s)
  {
    hide Stage, BytesAt, Crc.Crc32, Crc.RegisterBytes, RxU32, RxU16, Splice;
    forall x: Station, dat: seq<u8>, cmd: u8 | ValidStation(x)
      ensures var r := Stage(x, dat, cmd); r.escape == x.escape && r.rx == x.rx && r.rxPtr == x.rxPtr
    {
      StagePacket(x, dat, cmd);
    }
  }

  lemma StagePacket(s: Station, dat: seq<u8>, cmd: u8)
    requires ValidStation(s)
    ensures var r := Stage(s, dat, cmd); r.escape == s.escape && r.rx == s.rx && r.rxPtr == s.rxPtr
  {
  }

  // ---- pages ------------------------------------------------------------------------------

  /** What a page command does to the flash, and its answer. */
  predicate PageChanged(flash: seq<u8>, address: u32, data: seq<u8>, next: seq<u8>, reply: seq<u8>)
    requires |flash| == 524288
  {
    if NotAPage(address) then next == flash && reply == [0xFC, 0x12]
    else
      && address + 512 <= |flash| == |next| && next[address..address + 512] == data
      && SameElsewhere(flash, next, address, 512) && reply == [0xFC, 0x15]
  }

  lemma PageDone(env: Env, flash: seq<u8>, c: C.Command)
    requires ValidEnv(env) && |flash| == 524288 && (c.ErasePage? || (c.WritePage? && |c.data| == 512))
    ensures PageChanged(flash, c.address, if c.WritePage? then c.data else seq(512, _ => 0xFF),
      FlashAfter(flash, c), ReplyTo(env, flash, c))
  {
    hide Splice, R.Wire;
    R.BareWire(BadAddress);
    R.BareWire(Okay);
    var data: seq<u8> := if c.WritePage? then c.data else seq(512, _ => 0xFF);
    if !NotAPage(c.address) {
      PutAt(flash, c.address, data);
    }
  }

  lemma PutAt(flash: seq<u8>, at: nat, data: seq<u8>)
    requires at + |data| <= |flash|
    ensures var next := Splice(flash, at, data);
      next[at..at + |data|] == data && SameElsewhere(flash, next, at, |data|)
  {
  }

  /** Over the loop, with any timing: a page command of the right length is done exactly for the beginnings of pages of
      the application, and refused without a change otherwise. */
  lemma PageThroughLoop(env: Env, s: Station, j: Job) returns (reply: seq<u8>)
    requires ValidEnv(env) && Clean(s) && ValidJob(env, s.flash, j)
    requires j.command.ErasePage? || (j.command.WritePage? && |j.command.data| == 512)
    ensures var (r, c) := (Run(env, s, JobEvents(j)), j.command);
      && |s.flash| == 524288
      && PageChanged(s.flash, c.address, if c.WritePage? then c.data else seq(512, _ => 0xFF), r.flash, reply)
      && r.sent == s.sent + Tagged(reply, s.baud)
  {
    var c := j.command;
    assert |s.flash| == 524288 && C.WellFormed(c);
    hide *;
    PageDone(env, s.flash, c);
    reply := ReplyTo(env, s.flash, c);
    var _ := JobServed(env, s, j);
  }

  // ---- attributes and the user page ---------------------------------------------------------------

  /** GetAttr is answered with the 64 bytes of the slot, escaped; there are sixteen slots. */
  lemma SlotAnswered(env: Env, flash: seq<u8>, index: u8)
    requires ValidEnv(env) && |flash| == 524288
    ensures var at := 0x600 + 64 * (index as int);
      ReplyTo(env, flash, C.GetAttr(index))
        == if index < 16 then [0xFC, 0x22] + Escape(flash[at..at + 64]) else [0xFC, 0x12]
  {
    R.BareWire(BadAddress);
  }

  /** Of the attributes the encoder lets through, this bootloader refuses exactly those of index 16. */
  lemma AcceptedRefusedIff(env: Env, flash: seq<u8>, c: C.Command)
    requires ValidEnv(env) && |flash| == 524288 && c.SetAttr? && C.Accepted(c)
    ensures ReplyTo(env, flash, c) == [0xFC, 0x12] <==> c.index == 16
  {
    R.BareWire(BadAddress);
    R.BareWire(Okay);
  }

  /** What the other commands without data in their replies are answered with; of the two unanswered ones Reset also
      drops what was received. */
  lemma BareReplies(env: Env, flash: seq<u8>, page1: u32, page2: u32)
    requires ValidEnv(env) && |flash| == 524288
    ensures ReplyTo(env, flash, C.Ping) == [0xFC, 0x11]
    ensures ReplyTo(env, flash, C.Id) == ReplyTo(env, flash, C.Reset) == []
    ensures ReplyTo(env, flash, C.WriteFlashUserPages(page1, page2)) == [0xFC, 0x15]
    ensures ReplyTo(env, flash, C.Exit) == ReplyTo(env, flash, C.SetStartAddress(page1)) == [0xFC, 0x16]
    ensures ReplyTo(env, flash, C.CrcRxBuffer) == [0xFC, 0x19, 0, 0, 0xFF, 0xFF, 0xFF, 0xFF]
  {
    hide R.Wire;
    R.BareWire(Pong);
    R.BareWire(Okay);
    R.BareWire(Unknown);
    EmptyCrc();
  }

  lemma EmptyCrc()
    ensures R.Wire(R.CrcRxBuffer(0, 0xFFFF_FFFF)) == [0xFC, 0x19, 0, 0, 0xFF, 0xFF, 0xFF, 0xFF]
  {
    hide Escape;
    var body := R.Body(R.CrcRxBuffer(0, 0xFFFF_FFFF));
    assert body == [0, 0, 0xFF, 0xFF, 0xFF, 0xFF];
    EscapeIsIdentity(body);
  }

  /** The second word comes first in the user page, and the rest of it reads ones. */
  lemma UserDone(user: seq<u8>, page1: u32, page2: u32)
    requires |user| == 512
    ensures var next := UserAfter(user, C.WriteFlashUserPages(page1, page2));
      && |next| == 512 && LittleWord(next, 0) == page2 && LittleWord(next, 4) == page1
      && forall k :: 8 <= k < 512 ==> next[k] == 0xFF
  {
    LeU32RoundTrip(page1, [0, 0, 0, 0]);
    LeU32RoundTrip(page2, [0, 0, 0, 0]);
  }

  // ---- what no run reaches --------------------------------------------------------------------

  /** The attributes, or the application. */
  predicate Reachable(a: nat) {
    0x600 <= a < 0xA00 || a >= 65536
  }

  predicate OnlyReachable(flash: seq<u8>, next: seq<u8>) {
    |next| == |flash| && forall a :: 0 <= a < |flash| && !Reachable(a) ==> next[a] == flash[a]
  }

  lemma StageFlash(s: Station, dat: seq<u8>, cmd: u8)
    requires ValidStation(s)
    ensures Stage(s, dat, cmd).flash == s.flash
  {
  }

  lemma PutReaches(flash: seq<u8>, at: nat, data: seq<u8>)
    requires at + |data| <= |flash| && (at >= 65536 || (0x600 <= at && at + |data| <= 0xA00))
    ensures OnlyReachable(flash, Splice(flash, at, data))
  {
  }

  lemma PagesReach(s: Station)
    requires ValidStation(s)
    ensures OnlyReachable(s.flash, EPage(s).flash) && OnlyReachable(s.flash, WPage(s).flash)
  {
    var address := RxU32(s, 0);
    hide Stage, RxU32, OnlyReachable, Splice;
    forall x: Station, dat: seq<u8>, cmd: u8 | ValidStation(x) ensures Stage(x, dat, cmd).flash == x.flash {
      StageFlash(x, dat, cmd);
    }
    Unchanged(s.flash);
    if !BadPage(address) {
      PageFits(address);
      PutReaches(s.flash, address, seq(512, _ => 0xFF));
      PutReaches(s.flash, address, s.rx[4..516]);
    }
  }

  lemma Unchanged(flash: seq<u8>)
    ensures OnlyReachable(flash, flash)
  {
  }

  lemma AttributesReach(s: Station)
    requires ValidStation(s)
    ensures OnlyReachable(s.flash, SAttr(s).flash)
  {
    hide Stage, OnlyReachable, Splice;
    forall x: Station, dat: seq<u8>, cmd: u8 | ValidStation(x) ensures Stage(x, dat, cmd).flash == x.flash {
      StageFlash(x, dat, cmd);
    }
    Unchanged(s.flash);
    var index, n := s.rx[0] as nat, s.rx[9] as nat;
    if index < 16 && n < 56 {
      PutReaches(s.flash, AttributeAt(index), AttributeData(s.rx[1..9], s.rx[10..10 + n]));
    }
  }

  lemma ExecuteReaches(env: Env, s: Station, code: u8)
    requires ValidEnv(env) && ValidStation(s)
    ensures OnlyReachable(s.flash, Execute(env, s, code).flash)
  {
    PagesReach(s);
    AttributesReach(s);
    Unchanged(s.flash);
    hide Stage, BytesAt, Crc.Crc32, Crc.RegisterBytes, RxU32, RxU16, EPage, WPage, SAttr, OnlyReachable;
    forall x: Station, dat: seq<u8>, cmd: u8 | ValidStation(x) ensures Stage(x, dat, cmd).flash == x.flash {
      StageFlash(x, dat, cmd);
    }
  }

  lemma PollReaches(env: Env, s: Station, e: Event)
    requires ValidEnv(env) && ValidStation(s)
    ensures OnlyReachable(s.flash, Poll(env, s, e).flash)
  {
    hide Execute;
    forall code: u8, x: Station | ValidStation(x) ensures OnlyReachable(x.flash, Execute(env, x, code).flash) {
      ExecuteReaches(env, x, code);
    }
  }

  /** In every run, from any state and whatever comes in: of the flash below 65536 nothing but the sixteen attribute
      slots ever changes. */
  lemma {:induction false} BootloaderKept(env: Env, s: Station, es: seq<Event>)
    requires ValidEnv(env) && ValidStation(s)
    ensures OnlyReachable(s.flash, Run(env, s, es).flash)
    decreases |es|
  {
    if es != [] {
      hide Poll;
      PollReaches(env, s, es[0]);
      BootloaderKept(env, Poll(env, s, es[0]), es[1..]);
    }
  }
}
