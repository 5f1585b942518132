/** What a host sees of the polling bootloader: commands on a flat flash, and their replies. */
module LegacyService {
  import opened Alignment
  import opened Bytes
  import opened Framing
  import opened R = Responses
  import opened LegacyMachine
  import opened LegacyRuns
  import opened LegacyBaud
  import BM = BootloaderMachine
  import C = Commands
  import Crc
  import RD = ResponseDecoding
  import RT = ResponseRoundTrip

  // ---- staging loses nothing that is accepted -------------------------------------------

  /** All of the data is staged if and only if two bytes are free when its last byte's turn comes. */
  lemma {:induction false} AllTakenIff(dat: seq<u8>, left: nat)
    requires dat != []
    ensures Taken(dat, left) == |dat| <==> left + |Escape(dat[..|dat| - 1])| < TXBUFSZ - 1
    decreases |dat|
  {
    if |dat| == 1 {
      assert dat[..0] == [] && dat[1..] == [];
    } else {
      var init, rest := dat[..|dat| - 1], dat[1..];
      assert init[0] == dat[0] && init[1..] == rest[..|rest| - 1];
      if left < TXBUFSZ - 1 {
        AllTakenIff(rest, left + |EscapeByte(dat[0])|);
      }
    }
  }

  /** Every length a range command is accepted with fits, even if every byte has to be escaped. */
  lemma RangeNeverTruncated(s: Station, dat: seq<u8>, cmd: u8)
    requires ValidStation(s) && |dat| < TXBUFSZ / 2
    ensures LegacyRuns.Staged(Stage(s, dat, cmd)) == ResponseFrame(cmd, dat)
  {
    if dat != [] {
      AllTakenIff(dat, 2);
    }
    assert dat[..|dat|] == dat;
    BM.FillFits(dat, 2, TXBUFSZ);
  }

  lemma {:induction false} EscapeDoubles(n: nat)
    ensures |Escape(seq(n, _ => ESCAPE_CHAR))| == 2 * n
  {
    if n > 0 {
      var p: seq<u8> := seq(n, _ => ESCAPE_CHAR);
      assert p[1..] == seq(n - 1, _ => ESCAPE_CHAR);
      EscapeDoubles(n - 1);
    }
  }

  /** One byte more would not always fit: the bound is tight. */
  lemma BoundIsTight()
    ensures Taken(seq(TXBUFSZ / 2, _ => ESCAPE_CHAR), 2) < TXBUFSZ / 2
  {
    var p: seq<u8> := seq(TXBUFSZ / 2, _ => ESCAPE_CHAR);
    AllTakenIff(p, 2);
    assert p[..|p| - 1] == seq(TXBUFSZ / 2 - 1, _ => ESCAPE_CHAR);
    EscapeDoubles(TXBUFSZ / 2 - 1);
  }

  // ---- the flat-flash interpreter -----------------------------------------------------------

  predicate BadAttribute(index: u8, value: seq<u8>) {
    index >= 16 || |value| >= 56
  }

  /** The flash after a command. */
  function FlashAfter(flash: seq<u8>, c: C.Command): (next: seq<u8>)
    requires |flash| == FLASH_SIZE && C.WellFormed(c)
    ensures |next| == FLASH_SIZE
  {
    match c
    case WritePage(address, data) =>
      if |data| != PAGE || BadPage(address) then flash else Splice(flash, address, data)
    case ErasePage(address) => if BadPage(address) then flash else Splice(flash, address, seq(PAGE, _ => 0xFF))
    case SetAttr(index, key, value) =>
      if BadAttribute(index, value) then flash else Splice(flash, AttributeAt(index), AttributeData(key, value))
    case _ => flash
  }

  /** The user page after a command. */
  function UserAfter(user: seq<u8>, c: C.Command): seq<u8> {
    if c.WriteFlashUserPages? then LeU32(c.page2) + LeU32(c.page1) + seq(USER_PAGE_SIZE - 8, _ => 0xFF) else user
  }

  /** Ranges that reach beyond the flash, that begin at its last byte or behind it, or that are the whole of it. */
  predicate BadCrcRange(address: u32, length: u32) {
    address >= ALLOWED_FLASH_CEILING || address + length > FLASH_SIZE || length == FLASH_SIZE
  }

  /** The reply to a command. The identifier command is not answered, nor is Reset. */
  function ReplyTo(env: Env, flash: seq<u8>, c: C.Command): seq<u8>
    requires |flash| == FLASH_SIZE && ValidEnv(env)
  {
    match c
    case Ping => Wire(Pong)
    case Info => ResponseFrame(RES_INFO, env.info)
    case Id => []
    case Reset => []
    case ErasePage(address) => Wire(if BadPage(address) then BadAddress else Okay)
    case WritePage(address, data) =>
      Wire(if |data| != PAGE then R.BadArguments else if BadPage(address) then BadAddress else Okay)
    case CrcRxBuffer => Wire(R.CrcRxBuffer(0, 0xFFFF_FFFF))
    case ReadRange(address, length) =>
      if length >= TXBUFSZ / 2 then Wire(R.BadArguments)
      else if (address + length) % 0x1_0000_0000 > ALLOWED_FLASH_CEILING + 1 then Wire(BadAddress)
      else Wire(R.ReadRange(BytesAt(env, flash, address, length)))
    case SetAttr(index, key, value) => Wire(if BadAttribute(index, value) then BadAddress else Okay)
    case GetAttr(index) =>
      if index >= 16 then Wire(BadAddress)
      else ResponseFrame(RES_GATTR, flash[AttributeAt(index)..AttributeAt(index) + SLOT])
    case CrcIntFlash(address, length) =>
      if BadCrcRange(address, length) then Wire(BadAddress)
      else Wire(R.CrcIntFlash(Crc.Crc32(0, flash[address..address + length]) as int))
    case WriteFlashUserPages(_, _) => Wire(Okay)
    case _ => Wire(Unknown)
  }

  /** The negotiation has a module of its own; the receive buffer must have room for the packet. */
  predicate Plain(c: C.Command) {
    C.WellFormed(c) && !c.ChangeBaud? && |C.Payload(c)| < RXBUFSZ
  }

  /** The command as its last byte finds the station. */
  function Ready(s: Station, c: C.Command): (r: Station)
    requires ValidStation(s) && s.rxPtr == 0 && Plain(c)
    ensures ValidStation(r)
  {
    Loaded(s, C.Payload(c)).(escape := true)
  }

  ghost predicate Serves(env: Env, s: Station, c: C.Command, r: Station)
    requires ValidEnv(env) && ValidStation(s) && C.WellFormed(c) && ValidStation(r)
  {
    && r.flash == FlashAfter(s.flash, c) && r.user == UserAfter(s.user, c)
    && LegacyRuns.Staged(r) == ReplyTo(env, s.flash, c)
    && r.change == s.change && r.baud == s.baud && r.sent == s.sent
    && r.rxPtr <= |C.Payload(c)|
  }

  lemma AnswerServes(s: Station, response: Response)
    requires ValidStation(s) && Accepted(response) && Body(response) == []
    ensures var r := Answer(s, Code(response));
      && LegacyRuns.Staged(r) == Wire(response)
      && r == s.(txPtr := 0, txLeft := 2, tx := r.tx)
  {
    RangeNeverTruncated(s, [], Code(response));
    AnswerKeeps(s, Code(response));
  }

  lemma StageServes(s: Station, dat: seq<u8>, cmd: u8)
    requires ValidStation(s) && |dat| < TXBUFSZ / 2
    ensures var r := Stage(s, dat, cmd);
      && LegacyRuns.Staged(r) == ResponseFrame(cmd, dat)
      && r == s.(txPtr := 0, txLeft := r.txLeft, tx := r.tx)
  {
    RangeNeverTruncated(s, dat, cmd);
  }

  /** The packet lies at the front of the receive buffer. */
  lemma PacketAt(s: Station, c: C.Command, i: nat, n: nat)
    requires ValidStation(s) && s.rxPtr == 0 && Plain(c) && i + n <= |C.Payload(c)|
    ensures Ready(s, c).rx[i..i + n] == C.Payload(c)[i..i + n] && Ready(s, c).rxPtr == |C.Payload(c)|
  {
    hide C.Payload;
    SpliceFront(s.rx, C.Payload(c), i, n);
  }

  lemma SpliceFront(rx: seq<u8>, p: seq<u8>, i: nat, n: nat)
    requires i + n <= |p| <= |rx|
    ensures Splice(rx, 0, p)[i..i + n] == p[i..i + n]
  {
  }

  lemma AddressAt(s: Station, c: C.Command, i: nat, v: u32)
    requires ValidStation(s) && s.rxPtr == 0 && Plain(c) && i + 4 <= |C.Payload(c)| && C.Payload(c)[i..i + 4] == LeU32(v)
    ensures RxU32(Ready(s, c), i) == v
  {
    PacketAt(s, c, i, 4);
    LeU32RoundTrip(v, [0, 0, 0, 0]);
  }

  lemma WriteServes(env: Env, s: Station, c: C.Command)
    requires ValidEnv(env) && Clean(s) && Plain(c) && c.WritePage?
    ensures Serves(env, s, c, Execute(env, Ready(s, c), C.Code(c)))
  {
    hide Stage, Answer;
    var s1 := Ready(s, c);
    assert C.Payload(c)[0..4] == LeU32(c.address) && C.Payload(c)[4..] == c.data;
    AddressAt(s, c, 0, c.address);
    AnswerServes(s1, R.BadArguments);
    AnswerServes(s1, BadAddress);
    if |c.data| == PAGE && !BadPage(c.address) {
      PacketAt(s, c, 4, PAGE);
      assert C.Payload(c)[4..4 + PAGE] == c.data;
      AnswerServes(s1.(flash := Splice(s1.flash, c.address, c.data)), Okay);
    }
  }

  lemma EraseServes(env: Env, s: Station, c: C.Command)
    requires ValidEnv(env) && Clean(s) && Plain(c) && c.ErasePage?
    ensures Serves(env, s, c, Execute(env, Ready(s, c), C.Code(c)))
  {
    var s1 := Ready(s, c);
    AddressAt(s, c, 0, c.address);
    AnswerServes(s1, BadAddress);
    if !BadPage(c.address) {
      AnswerServes(s1.(flash := Splice(s1.flash, c.address, seq(PAGE, _ => 0xFF))), Okay);
    }
  }

  lemma RangeReads(s: Station, c: C.Command)
    requires Clean(s) && Plain(c) && c.ReadRange?
    ensures var s1 := Ready(s, c);
      s1.rxPtr == 6 && RxU32(s1, 0) == c.address && RxU16(s1, 4) == c.length && s1.flash == s.flash && s1.change == Idle
  {
    hide Splice, LeU32;
    assert C.Payload(c)[0..4] == LeU32(c.address) && C.Payload(c)[4..6] == LeU16(c.length);
    AddressAt(s, c, 0, c.address);
    PacketAt(s, c, 4, 2);
    LeU16RoundTrip(c.length, [0, 0]);
  }

  lemma RangeExecutes(env: Env, s: Station, address: u32, length: u16)
    requires ValidEnv(env) && ValidStation(s) && s.change == Idle
    requires s.rxPtr == 6 && RxU32(s, 0) == address && RxU16(s, 4) == length
    ensures var r := Execute(env, s, C.CMD_RRANGE);
      && LegacyRuns.Staged(r) == ReplyTo(env, s.flash, C.ReadRange(address, length))
      && r == s.(txPtr := r.txPtr, txLeft := r.txLeft, tx := r.tx)
  {
    hide Stage, BytesAt, Escape, Answer, RxU16, RxU32;
    AnswerServes(s, R.BadArguments);
    AnswerServes(s, BadAddress);
    if length < TXBUFSZ / 2 {
      StageServes(s, BytesAt(env, s.flash, address, length), RES_RRANGE);
    }
  }

  lemma RangeServes(env: Env, s: Station, c: C.Command)
    requires ValidEnv(env) && Clean(s) && Plain(c) && c.ReadRange?
    ensures Serves(env, s, c, Execute(env, Ready(s, c), C.Code(c)))
  {
    hide Execute, ReplyTo, RxU16, RxU32;
    RangeReads(s, c);
    RangeExecutes(env, Ready(s, c), c.address, c.length);
  }

  lemma CrcServes(env: Env, s: Station, c: C.Command)
    requires ValidEnv(env) && Clean(s) && Plain(c) && c.CrcIntFlash?
    ensures Serves(env, s, c, Execute(env, Ready(s, c), C.Code(c)))
  {
    hide Stage, Escape, Crc.Crc32, Crc.RegisterBytes, Answer, Splice, LeU32, ReadU32;
    var s1 := Ready(s, c);
    assert C.Payload(c)[0..4] == LeU32(c.address) && C.Payload(c)[4..8] == LeU32(c.crcLength);
    AddressAt(s, c, 0, c.address);
    AddressAt(s, c, 4, c.crcLength);
    hide RxU32;
    AnswerServes(s1, BadAddress);
    if !BadCrcRange(c.address, c.crcLength) {
      var bytes := Crc.RegisterBytes(Crc.Crc32(0, s1.flash[c.address..c.address + c.crcLength]));
      Crc.BytesAreRegister(Crc.Crc32(0, s1.flash[c.address..c.address + c.crcLength]));
      StageServes(s1, bytes, RES_CRCIF);
    }
  }

  lemma SetReads(s: Station, c: C.Command)
    requires Clean(s) && Plain(c) && c.SetAttr?
    ensures var s1 := Ready(s, c);
      && s1.rxPtr == 10 + |c.value| && s1.rx[0] == c.index && s1.rx[9] == |c.value| && s1.rx[1..9] == c.key
      && s1.rx[10..10 + |c.value|] == c.value
  {
    hide Ready, Loaded;
    var s1, p, n := Ready(s, c), C.Payload(c), |c.value|;
    assert p[0..1] == [c.index] && p[1..9] == c.key && p[9..10] == [n as u8] && p[10..10 + n] == c.value;
    PacketAt(s, c, 0, 1);
    PacketAt(s, c, 1, 8);
    PacketAt(s, c, 9, 1);
    PacketAt(s, c, 10, n);
    assert s1.rx[0] == s1.rx[0..1][0] && s1.rx[9] == s1.rx[9..10][0];
  }

  lemma SetAttrServes(env: Env, s: Station, c: C.Command)
    requires ValidEnv(env) && Clean(s) && Plain(c) && c.SetAttr?
    ensures Serves(env, s, c, Execute(env, Ready(s, c), C.Code(c)))
  {
    hide Stage, Answer, Escape, Splice;
    SetReads(s, c);
    var s1 := Ready(s, c);
    AnswerServes(s1, BadAddress);
    if !BadAttribute(c.index, c.value) {
      AnswerServes(s1.(flash := Splice(s1.flash, AttributeAt(c.index), AttributeData(c.key, c.value))), Okay);
    }
  }

  lemma GetAttrServes(env: Env, s: Station, c: C.Command)
    requires ValidEnv(env) && Clean(s) && Plain(c) && c.GetAttr?
    ensures Serves(env, s, c, Execute(env, Ready(s, c), C.Code(c)))
  {
    hide Stage, Escape;
    var s1 := Ready(s, c);
    PacketAt(s, c, 0, 1);
    assert s1.rx[0] == s1.rx[0..1][0];
    AnswerServes(s1, BadAddress);
    if c.index < 16 {
      StageServes(s1, s1.flash[AttributeAt(c.index)..AttributeAt(c.index) + SLOT], RES_GATTR);
    }
  }

  predicate IsUnknown(c: C.Command) {
    c.EraseExBlock? || c.WriteExPage? || c.ExReadRange? || c.CrcExtFlash? || c.EraseExPage? || c.ExtFlashInit?
    || c.ClockOut? || c.SetStartAddress? || c.Exit?
  }

  lemma UnknownServes(env: Env, s: Station, c: C.Command)
    requires ValidEnv(env) && Clean(s) && Plain(c) && IsUnknown(c)
    ensures Serves(env, s, c, Execute(env, Ready(s, c), C.Code(c)))
  {
    hide Stage, Escape, Answer, C.Payload;
    AnswerServes(Ready(s, c), Unknown);
  }

  lemma CrcRxServes(env: Env, s: Station, c: C.Command)
    requires ValidEnv(env) && Clean(s) && Plain(c) && c.CrcRxBuffer?
    ensures Serves(env, s, c, Execute(env, Ready(s, c), C.Code(c)))
  {
    hide Stage, Escape, Crc.Crc32;
    assert LeU32(0xFFFF_FFFF) == [0xFF, 0xFF, 0xFF, 0xFF];
    StageServes(Ready(s, c), LeU16(0) + [0xFF, 0xFF, 0xFF, 0xFF], RES_CRCRX);
  }

  lemma UserReads(s: Station, c: C.Command)
    requires Clean(s) && Plain(c) && c.WriteFlashUserPages?
    ensures var s1 := Ready(s, c);
      s1.rxPtr == 8 && s1.rx[0..4] == LeU32(c.page1) && s1.rx[4..8] == LeU32(c.page2)
  {
    hide Ready, LeU32;
    assert C.Payload(c)[0..4] == LeU32(c.page1) && C.Payload(c)[4..8] == LeU32(c.page2);
    PacketAt(s, c, 0, 4);
    PacketAt(s, c, 4, 4);
  }

  lemma UserServes(env: Env, s: Station, c: C.Command)
    requires ValidEnv(env) && Clean(s) && Plain(c) && c.WriteFlashUserPages?
    ensures Serves(env, s, c, Execute(env, Ready(s, c), C.Code(c)))
  {
    hide Stage, Escape, Answer, LeU32, Splice;
    UserReads(s, c);
    var s1 := Ready(s, c);
    AnswerServes(s1.(user := s1.rx[4..8] + s1.rx[0..4] + seq(USER_PAGE_SIZE - 8, _ => 0xFF)), Okay);
  }

  lemma BareServe(env: Env, s: Station, c: C.Command)
    requires ValidEnv(env) && Clean(s) && Plain(c) && (c.Ping? || c.Info? || c.Id? || c.Reset?)
    ensures Serves(env, s, c, Execute(env, Ready(s, c), C.Code(c)))
  {
    hide Stage, Escape, Answer;
    AnswerServes(Ready(s, c), Pong);
    StageServes(Ready(s, c), env.info, RES_INFO);
  }

  /** Every command outside a negotiation does to the flash what the interpreter says, and stages its reply whole. */
  lemma CommandServes(env: Env, s: Station, c: C.Command)
    requires ValidEnv(env) && Clean(s) && Plain(c)
    ensures Serves(env, s, c, Execute(env, Ready(s, c), C.Code(c)))
  {
    assert !c.ChangeBaud?;
    hide Serves, Execute, Ready, Clean, Plain;
    match c
    case WritePage(_, _) => WriteServes(env, s, c);
    case ErasePage(_) => EraseServes(env, s, c);
    case ReadRange(_, _) => RangeServes(env, s, c);
    case CrcIntFlash(_, _) => CrcServes(env, s, c);
    case SetAttr(_, _, _) => SetAttrServes(env, s, c);
    case GetAttr(_) => GetAttrServes(env, s, c);
    case CrcRxBuffer => CrcRxServes(env, s, c);
    case WriteFlashUserPages(_, _) => UserServes(env, s, c);
    case _ =>
      if c.Ping? || c.Info? || c.Id? || c.Reset? {
        BareServe(env, s, c);
      } else {
        UnknownServes(env, s, c);
      }
  }

  /** Asked for after data has come in, the receive buffer's length and CRC are those of the data. */
  lemma CrcRxReports(env: Env, s: Station, p: seq<u8>)
    requires ValidEnv(env) && Clean(s) && 0 < |p| < RXBUFSZ
    ensures LegacyRuns.Staged(Execute(env, Loaded(s, p).(escape := true), C.CMD_CRCRX))
      == Wire(R.CrcRxBuffer(|p|, Crc.Crc32(0, p) as int))
  {
    hide Stage, Escape, Crc.Crc32, Crc.RegisterBytes;
    var s1 := Loaded(s, p).(escape := true);
    SpliceFront(s.rx, p, 0, |p|);
    assert s1.rx[..|p|] == p;
    var bytes := Crc.RegisterBytes(Crc.Crc32(0, p));
    Crc.BytesAreRegister(Crc.Crc32(0, p));
    StageServes(s1, LeU16(|p|) + bytes, RES_CRCRX);
  }

  // ---- sessions --------------------------------------------------------------------------------

  /** A command, the polls it takes, and the Reset a host sends before the next one. */
  datatype Job = Job(command: C.Command, serve: Turn, reset: Turn)

  predicate ValidJob(env: Env, flash: seq<u8>, j: Job)
    requires ValidEnv(env) && |flash| == FLASH_SIZE
  {
    && Plain(j.command)
    && Brings(j.serve, C.Payload(j.command)) && Outlasts(j.serve, |ReplyTo(env, flash, j.command)|)
    && Brings(j.reset, []) && Outlasts(j.reset, 0)
  }

  function JobEvents(j: Job): seq<Event> {
    Events(j.serve, C.Code(j.command)) + Events(j.reset, C.CMD_RESET)
  }

  lemma FinishedIdle(s: Station)
    requires ValidStation(s) && s.change == Idle
    ensures Finished(s)
      == s.(sent := s.sent + Tagged(LegacyRuns.Staged(s), s.baud), txPtr := s.txPtr + s.txLeft, txLeft := 0)
  {
  }

  lemma ResetTurn(env: Env, s: Station, t: Turn)
    requires ValidEnv(env) && ValidStation(s) && Still(s) && s.change == Idle && !s.escape && s.rxPtr < RXBUFSZ
    requires Brings(t, []) && Outlasts(t, 0)
    ensures var r := Run(env, s, Events(t, C.CMD_RESET));
      Clean(r) && r.flash == s.flash && r.user == s.user && r.baud == s.baud && r.sent == s.sent
  {
    hide Run, Events, Brings, Outlasts;
    TurnRuns(env, s, t, C.CMD_RESET, []);
    var r := Execute(env, Loaded(s, []).(escape := true), C.CMD_RESET).(escape := false);
    FinishedIdle(r);
    TaggedNothing(s.sent, s.baud);
  }

  /** One command: whatever the timing, the reply goes out whole at the current rate, the flash is what the
      interpreter says, and after the Reset the station is as it was before. */
  lemma JobServed(env: Env, s: Station, j: Job) returns (r: Station)
    requires ValidEnv(env) && Clean(s) && ValidJob(env, s.flash, j)
    ensures r == Run(env, s, JobEvents(j))
    ensures Clean(r) && r.flash == FlashAfter(s.flash, j.command) && r.baud == s.baud
    ensures r.user == UserAfter(s.user, j.command)
    ensures r.sent == s.sent + Tagged(ReplyTo(env, s.flash, j.command), s.baud)
  {
    hide Run, Events, Brings, Outlasts, Execute, ReplyTo, FlashAfter, Tagged;
    var c := j.command;
    CommandServes(env, s, c);
    var r0 := Execute(env, Ready(s, c), C.Code(c)).(escape := false);
    TurnRuns(env, s, j.serve, C.Code(c), C.Payload(c));
    FinishedIdle(r0);
    var s1 := Run(env, s, Events(j.serve, C.Code(c)));
    ResetTurn(env, s1, j.reset);
    RunConcat(env, s, Events(j.serve, C.Code(c)), Events(j.reset, C.CMD_RESET));
    r := Run(env, s, JobEvents(j));
  }

  predicate ValidSession(env: Env, flash: seq<u8>, jobs: seq<Job>)
    requires ValidEnv(env) && |flash| == FLASH_SIZE
    decreases |jobs|
  {
    jobs == []
    || (ValidJob(env, flash, jobs[0]) && ValidSession(env, FlashAfter(flash, jobs[0].command), jobs[1..]))
  }

  function SessionEvents(jobs: seq<Job>): seq<Event> {
    if jobs == [] then [] else JobEvents(jobs[0]) + SessionEvents(jobs[1..])
  }

  function FlashAfterAll(env: Env, flash: seq<u8>, jobs: seq<Job>): (next: seq<u8>)
    requires ValidEnv(env) && |flash| == FLASH_SIZE && ValidSession(env, flash, jobs)
    ensures |next| == FLASH_SIZE
    decreases |jobs|
  {
    if jobs == [] then flash else FlashAfterAll(env, FlashAfter(flash, jobs[0].command), jobs[1..])
  }

  function UserAfterAll(user: seq<u8>, jobs: seq<Job>): seq<u8>
    decreases |jobs|
  {
    if jobs == [] then user else UserAfterAll(UserAfter(user, jobs[0].command), jobs[1..])
  }

  function Replies(env: Env, flash: seq<u8>, jobs: seq<Job>): seq<u8>
    requires ValidEnv(env) && |flash| == FLASH_SIZE && ValidSession(env, flash, jobs)
    decreases |jobs|
  {
    if jobs == [] then []
    else ReplyTo(env, flash, jobs[0].command) + Replies(env, FlashAfter(flash, jobs[0].command), jobs[1..])
  }

  lemma TaggedJoins(sent: seq<Sent>, a: seq<u8>, b: seq<u8>, rate: u32)
    ensures sent + Tagged(a, rate) + Tagged(b, rate) == sent + Tagged(a + b, rate)
  {
    TaggedConcat(a, b, rate);
  }

  /** The polling bootloader refines the command interpreter on a flat flash: any number of commands, each
      followed by a Reset, with any timing. */
  lemma {:induction false} SessionServed(env: Env, s: Station, jobs: seq<Job>)
    requires ValidEnv(env) && Clean(s) && ValidSession(env, s.flash, jobs)
    ensures var r := Run(env, s, SessionEvents(jobs));
      && Clean(r) && r.baud == s.baud && r.flash == FlashAfterAll(env, s.flash, jobs)
      && r.user == UserAfterAll(s.user, jobs)
      && r.sent == s.sent + Tagged(Replies(env, s.flash, jobs), s.baud)
    decreases |jobs|
  {
    assert ValidStation(s);
    hide Clean, ValidJob, JobEvents, ReplyTo, FlashAfter, UserAfter, Tagged;
    if jobs == [] {
      TaggedNothing(s.sent, s.baud);
    } else {
      hide Run;
      var s1 := JobServed(env, s, jobs[0]);
      SessionServed(env, s1, jobs[1..]);
      RunConcat(env, s, JobEvents(jobs[0]), SessionEvents(jobs[1..]));
      TaggedJoins(s.sent, ReplyTo(env, s.flash, jobs[0].command), Replies(env, s1.flash, jobs[1..]), s.baud);
    }
  }

  // ---- from start-up ------------------------------------------------------------------------------

  /** The station as its constructor leaves it. */
  function Boot(tx: seq<u8>, rx: seq<u8>, flash: seq<u8>, user: seq<u8>): Station {
    Station(false, tx, 0, 0, rx, 0, Idle, 0, 0, 115200, flash, user, [])
  }

  /** Start-up establishes what sessions and negotiations start from. */
  lemma BootReady(tx: seq<u8>, rx: seq<u8>, flash: seq<u8>, user: seq<u8>)
    requires |tx| == TXBUFSZ && |rx| == RXBUFSZ && |flash| == FLASH_SIZE && |user| == USER_PAGE_SIZE
    ensures Clean(Boot(tx, rx, flash, user)) && Anchored(Boot(tx, rx, flash, user), 115200)
  {
  }

  /** From start-up on, every session leaves flash and user page as the interpreter does, and all its replies and
      nothing else go out, at 115200 baud. */
  lemma BootServes(env: Env, tx: seq<u8>, rx: seq<u8>, flash: seq<u8>, user: seq<u8>, jobs: seq<Job>)
    requires |tx| == TXBUFSZ && |rx| == RXBUFSZ && |flash| == FLASH_SIZE && |user| == USER_PAGE_SIZE
    requires ValidEnv(env) && ValidSession(env, flash, jobs)
    ensures Clean(Boot(tx, rx, flash, user))
    ensures var r := Run(env, Boot(tx, rx, flash, user), SessionEvents(jobs));
      && Clean(r) && r.flash == FlashAfterAll(env, flash, jobs) && r.user == UserAfterAll(user, jobs)
      && r.sent == Tagged(Replies(env, flash, jobs), 115200)
  {
    hide Run, ValidSession, Replies, Tagged, SessionEvents;
    BootReady(tx, rx, flash, user);
    SessionServed(env, Boot(tx, rx, flash, user), jobs);
    var out := Tagged(Replies(env, flash, jobs), 115200);
    assert [] + out == out;
  }
}
