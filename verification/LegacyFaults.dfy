/** Where the polling bootloader does not do what it is meant to, and exactly when. */
module LegacyFaults {
  import opened Bytes
  import opened Framing
  import opened R = Responses
  import opened LegacyMachine
  import opened LegacyRuns
  import opened LegacyBaud
  import opened LegacyService
  import C = Commands
  import RD = ResponseDecoding
  import RT = ResponseRoundTrip

  // ---- ranges ------------------------------------------------------------------------

  /** Of the ranges within the flash the CRC command refuses exactly the whole flash and those that begin at its last
      byte or behind it. */
  lemma CrcRefusedIff(address: u32, length: u32)
    requires address + length <= 524288
    ensures BadCrcRange(address, length) <==> length == 524288 || address >= 524287
  {
  }

  /** The last byte of the flash, for one: it can be read but not summed. */
  lemma LastByteRefused(env: Env, s: Station)
    requires ValidEnv(env) && Clean(s)
    ensures var c := C.CrcIntFlash(FLASH_SIZE - 1, 1);
      LegacyRuns.Staged(Execute(env, Ready(s, c), C.Code(c))) == Wire(BadAddress)
    ensures var c := C.ReadRange(FLASH_SIZE - 1, 1);
      LegacyRuns.Staged(Execute(env, Ready(s, c), C.Code(c))) == Wire(R.ReadRange([s.flash[FLASH_SIZE - 1]]))
  {
    hide Execute, Ready, Stage, Escape;
    CommandServes(env, s, C.CrcIntFlash(FLASH_SIZE - 1, 1));
    CommandServes(env, s, C.ReadRange(FLASH_SIZE - 1, 1));
    assert s.flash[FLASH_SIZE - 1..FLASH_SIZE] == [s.flash[FLASH_SIZE - 1]];
  }

  /** A range of a length that can be sent is refused if and only if it reaches beyond the flash without running past
      the last 32-bit address: there the sum wraps around. */
  lemma RangeRefusedIff(env: Env, flash: seq<u8>, address: u32, length: u16)
    requires ValidEnv(env) && |flash| == FLASH_SIZE && length < 4096
    ensures ReplyTo(env, flash, C.ReadRange(address, length)) == Wire(BadAddress)
      <==> 524288 < address + length < 0x1_0000_0000
  {
    hide BytesAt, Escape;
    assert Wire(BadAddress)[1] == RES_BADADDR;
    assert Wire(R.ReadRange(BytesAt(env, flash, address, length)))[1] == RES_RRANGE;
  }

  /** An accepted range that does not wrap lies in the flash. One that wraps begins outside it: its reply holds bytes of
      other memory and then the beginning of the flash. */
  lemma WrappedRangeReads(env: Env, flash: seq<u8>, address: u32, length: u16, i: nat)
    requires ValidEnv(env) && |flash| == FLASH_SIZE && length < TXBUFSZ / 2 && address + length >= 0x1_0000_0000
    requires i < length
    ensures ReplyTo(env, flash, C.ReadRange(address, length)) == Wire(R.ReadRange(BytesAt(env, flash, address, length)))
    ensures BytesAt(env, flash, address, length)[i]
      == if address + i < 0x1_0000_0000 then env.outside(address + i) else flash[address + i - 0x1_0000_0000]
  {
    hide Escape, BytesAt;
    BytesAtIs(env, flash, address, length, i);
  }

  lemma {:induction false} BytesAtIs(env: Env, flash: seq<u8>, address: u32, n: nat, i: nat)
    requires i < n
    ensures BytesAt(env, flash, address, n)[i] == ByteAt(env, flash, (address + i) % 0x1_0000_0000)
    decreases n
  {
    if i > 0 {
      BytesAtIs(env, flash, (address + 1) % 0x1_0000_0000, n - 1, i - 1);
      WrapTwice(address, i);
    }
  }

  lemma WrapTwice(address: nat, i: nat)
    requires i > 0
    ensures ((address + 1) % 0x1_0000_0000 + (i - 1)) % 0x1_0000_0000 == (address + i) % 0x1_0000_0000
  {
  }

  // ---- a full receive buffer --------------------------------------------------------------

  /** Once the receive buffer is full it stays full: nothing that arrives is a command any more, not even Reset. */
  lemma {:induction false} FullForEver(env: Env, s: Station, es: seq<Event>)
    requires ValidEnv(env) && ValidStation(s) && s.rxPtr == RXBUFSZ
    ensures var r := Run(env, s, es);
      && r.rxPtr == RXBUFSZ && r.rx == s.rx && r.escape == s.escape && r.flash == s.flash && r.user == s.user
    decreases |es|
  {
    if es != [] {
      FullForEver(env, Poll(env, s, es[0]), es[1..]);
    }
  }

  /** Bytes that are neither commands nor escapes fill it, whatever the timing. */
  lemma {:induction false} Fills(env: Env, s: Station, es: seq<Event>)
    requires ValidEnv(env) && ValidStation(s) && Still(s) && s.change == Idle && !s.escape
    requires ESCAPE_CHAR !in RxOf(es) && s.rxPtr + |RxOf(es)| <= RXBUFSZ
    ensures var r := Run(env, s, es); r == s.(rx := r.rx, rxPtr := s.rxPtr + |RxOf(es)|)
    decreases |es|
  {
    if es != [] {
      assert es[0].rx.Some? ==> RxOf(es)[0] == es[0].rx.value;
      Fills(env, Poll(env, s, es[0]), es[1..]);
    }
  }

  /** Full, with nothing of an earlier response left to send. */
  predicate Deaf(s: Station) {
    ValidStation(s) && s.rxPtr == RXBUFSZ && (s.txLeft == 0 || LegacyRuns.Staged(s) == [RES_OVERFLOW])
  }

  function BytesOf(sent: seq<Sent>): (bytes: seq<u8>)
    ensures |bytes| == |sent|
  {
    seq(|sent|, i requires 0 <= i < |sent| => sent[i].byte)
  }

  /** What a run sends. */
  function SentDuring(env: Env, s: Station, es: seq<Event>): seq<u8>
    requires ValidEnv(env) && ValidStation(s)
  {
    var sent := Run(env, s, es).sent;
    if |s.sent| <= |sent| then BytesOf(sent[|s.sent|..]) else []
  }

  predicate AllOverflow(bytes: seq<u8>) {
    forall i :: 0 <= i < |bytes| ==> bytes[i] == RES_OVERFLOW
  }

  lemma DeafPoll(env: Env, s: Station, e: Event)
    requires ValidEnv(env) && Deaf(s)
    ensures var r := Poll(env, s, e);
      Deaf(r) && (r.sent == s.sent || r.sent == s.sent + [Sent(RES_OVERFLOW, s.baud)])
  {
    var s1 := Receive(env, s, e.rx);
    assert Deaf(s1) && s1.sent == s.sent && s1.baud == s.baud;
    if s1.txLeft > 0 {
      assert s1.tx[s1.txPtr] == LegacyRuns.Staged(s1)[0];
    }
  }

  /** From then on it sends nothing but bare overflow codes. */
  lemma {:induction false} DeafRun(env: Env, s: Station, es: seq<Event>)
    requires ValidEnv(env) && Deaf(s)
    ensures var r := Run(env, s, es);
      && |s.sent| <= |r.sent| && r.sent[..|s.sent|] == s.sent && AllOverflow(BytesOf(r.sent[|s.sent|..]))
    decreases |es|
  {
    hide Poll, Deaf;
    assert ValidStation(s) by { DeafValid(s); }
    if es != [] {
      DeafPoll(env, s, es[0]);
      var s1, r := Poll(env, s, es[0]), Run(env, s, es);
      DeafRun(env, s1, es[1..]);
      forall i | |s.sent| <= i < |r.sent| ensures r.sent[i].byte == RES_OVERFLOW {
        if i < |s1.sent| {
          assert r.sent[i] == r.sent[..|s1.sent|][i];
        } else {
          assert BytesOf(r.sent[|s1.sent|..])[i - |s1.sent|] == r.sent[i].byte;
        }
      }
      assert r.sent[..|s.sent|] == r.sent[..|s1.sent|][..|s.sent|];
    }
  }

  lemma DeafValid(s: Station)
    requires Deaf(s)
    ensures ValidStation(s)
  {
  }

  lemma {:induction false} OverflowIsData(d: RD.Decoder, bytes: seq<u8>)
    requires RD.ValidDecoder(d) && d.state == RD.Loading && AllOverflow(bytes)
    ensures RD.Got(Overflow) !in RT.Answers(d, bytes)
    decreases |bytes|
  {
    if bytes != [] {
      OverflowIsData(RD.Step(d, bytes[0]).0, bytes[1..]);
    }
  }

  /** The overflow code is staged without an escape: a host's decoder takes it for data and never reports the overflow,
      however long the station goes on saying so, unless it happens to be inside an escape. */
  lemma OverflowUnseenIff(env: Env, s: Station, d: RD.Decoder)
    requires ValidEnv(env) && Deaf(s) && RD.ValidDecoder(d)
    ensures (forall es: seq<Event> :: RD.Got(Overflow) !in RT.Answers(d, SentDuring(env, s, es)))
      <==> d.state == RD.Loading
  {
    hide RT.Answers, Run, Deaf;
    DeafValid(s);
    if d.state == RD.Loading {
      forall es: seq<Event> ensures RD.Got(Overflow) !in RT.Answers(d, SentDuring(env, s, es)) {
        DeafRun(env, s, es);
        OverflowIsData(d, SentDuring(env, s, es));
      }
    } else {
      var es := [Event(Some(0), true)];
      OneOverflow(env, s);
      SeenInEscape(d);
    }
  }

  lemma OneOverflow(env: Env, s: Station)
    requires ValidEnv(env) && Deaf(s)
    ensures SentDuring(env, s, [Event(Some(0), true)]) == [RES_OVERFLOW]
  {
    var es := [Event(Some(0), true)];
    assert es[1..] == [];
    var r := Poll(env, s, es[0]);
    assert Run(env, s, es) == Run(env, r, []) == r;
    assert r.sent == s.sent + [Sent(RES_OVERFLOW, s.baud)];
    assert r.sent[|s.sent|..] == [Sent(RES_OVERFLOW, s.baud)];
  }

  lemma SeenInEscape(d: RD.Decoder)
    requires RD.ValidDecoder(d) && d.state == RD.Escaped
    ensures RD.Got(Overflow) in RT.Answers(d, [RES_OVERFLOW])
  {
    assert RT.Answers(d, [RES_OVERFLOW])[0] == RD.Step(d, RES_OVERFLOW).1;
  }

  /** Such a state is reached from start-up by as many bytes as the buffer holds. No command works any more, and the
      host learns nothing. */
  lemma DeafFromStart(env: Env, tx: seq<u8>, rx: seq<u8>, flash: seq<u8>, user: seq<u8>,
                      filling: seq<Event>, later: seq<Event>, d: RD.Decoder)
    requires |tx| == TXBUFSZ && |rx| == RXBUFSZ && |flash| == FLASH_SIZE && |user| == USER_PAGE_SIZE
    requires ValidEnv(env) && RT.Idle(d) && ESCAPE_CHAR !in RxOf(filling) && |RxOf(filling)| == RXBUFSZ
    ensures ValidStation(Boot(tx, rx, flash, user))
    ensures var r := Run(env, Boot(tx, rx, flash, user), filling + later);
      && r.rxPtr == RXBUFSZ && r.flash == flash && r.user == user
      && AllOverflow(BytesOf(r.sent)) && RD.Got(Overflow) !in RT.Answers(d, BytesOf(r.sent))
  {
    hide Run, RT.Answers, AllOverflow;
    var s := Boot(tx, rx, flash, user);
    BootReady(tx, rx, flash, user);
    Fills(env, s, filling);
    RunConcat(env, s, filling, later);
    var s1 := Run(env, s, filling);
    FullForEver(env, s1, later);
    DeafRun(env, s1, later);
    var r := Run(env, s1, later);
    assert r.sent[0..] == r.sent;
    OverflowIsData(d, BytesOf(r.sent));
  }

  // ---- resynchronising ------------------------------------------------------------------------

  function TwoResets(): seq<u8> {
    C.Wire(C.Reset) + C.Wire(C.Reset)
  }

  /** Nothing of a packet is kept and no escape is pending. */
  predicate Synchronised(s: Station) {
    s.rxPtr == 0 && !s.escape
  }

  lemma TakeFour(env: Env, s: Station, a: u8, b: u8, c: u8, d: u8)
    requires ValidEnv(env) && ValidStation(s)
    ensures Take(env, s, [a, b, c, d])
      == Receive(env, Receive(env, Receive(env, Receive(env, s, Some(a)), Some(b)), Some(c)), Some(d))
  {
    hide Receive;
    assert [a, b, c, d][1..] == [b, c, d] && [b, c, d][1..] == [c, d] && [c, d][1..] == [d] && [d][1..] == [];
    var s1 := Receive(env, s, Some(a));
    var s2 := Receive(env, s1, Some(b));
    var s3 := Receive(env, s2, Some(c));
    assert Take(env, s3, [d]) == Take(env, Receive(env, s3, Some(d)), []);
    assert Take(env, s2, [c, d]) == Take(env, s3, [d]);
    assert Take(env, s1, [b, c, d]) == Take(env, s2, [c, d]);
  }

  lemma TwoResetsAre()
    ensures TwoResets() == [ESCAPE_CHAR, C.CMD_RESET, ESCAPE_CHAR, C.CMD_RESET]
  {
    assert C.Wire(C.Reset) == [ESCAPE_CHAR, C.CMD_RESET];
  }

  /** What `FC 05` does outside an escape. */
  lemma ResetFrame(env: Env, s: Station)
    requires ValidEnv(env) && ValidStation(s) && !s.escape && s.rxPtr < RXBUFSZ
    ensures var r := Receive(env, Receive(env, s, Some(ESCAPE_CHAR)), Some(C.CMD_RESET));
      && !r.escape
      && r.rxPtr == (if s.change == Waiting then s.rxPtr else 0)
      && r.change == (if s.change == Waiting then Resetting else s.change)
  {
    hide Stage;
    AnswerKeeps(s.(escape := true, change := Resetting), RES_CHANGE_BAUD_FAIL);
  }

  /** And inside one, where its first byte is taken for data. */
  lemma ResetTail(env: Env, s: Station)
    requires ValidEnv(env) && ValidStation(s) && s.escape && s.rxPtr <= RXBUFSZ - 2
    ensures var r := Receive(env, Receive(env, s, Some(ESCAPE_CHAR)), Some(C.CMD_RESET));
      && !r.escape
      && r.rxPtr == (if s.change == Waiting && s.rxPtr >= 10 then s.rxPtr + 1 else s.rxPtr + 2)
      && r.change == (if s.change == Waiting && s.rxPtr >= 10 then Resetting else s.change)
  {
    hide Stage;
    var s1 := Keep(s.(escape := false), ESCAPE_CHAR);
    AnswerKeeps(s1.(change := Resetting), RES_CHANGE_BAUD_FAIL);
  }

  lemma StuckStays(env: Env, s: Station, b: u8)
    requires ValidEnv(env) && ValidStation(s) && s.rxPtr == RXBUFSZ
    ensures Receive(env, s, Some(b)).rxPtr == RXBUFSZ && Receive(env, s, Some(b)).escape == s.escape
  {
  }

  /** What four bytes without a poll of the transmitter do. */
  lemma AtOnce(env: Env, s: Station)
    requires ValidEnv(env) && ValidStation(s)
    ensures Synchronised(Take(env, s, TwoResets())) <==>
      if !s.escape then s.rxPtr < RXBUFSZ
      else if s.change == Waiting then 10 <= s.rxPtr <= RXBUFSZ - 2
      else s.rxPtr <= RXBUFSZ - 3
  {
    TwoResetsAre();
    TakeFour(env, s, ESCAPE_CHAR, C.CMD_RESET, ESCAPE_CHAR, C.CMD_RESET);
    var s1 := Receive(env, s, Some(ESCAPE_CHAR));
    var s2 := Receive(env, s1, Some(C.CMD_RESET));
    var s3 := Receive(env, s2, Some(ESCAPE_CHAR));
    var s4 := Receive(env, s3, Some(C.CMD_RESET));
    if s.rxPtr == RXBUFSZ {
      hide Receive;
      StuckStays(env, s, ESCAPE_CHAR);
      StuckStays(env, s1, C.CMD_RESET);
      StuckStays(env, s2, ESCAPE_CHAR);
      StuckStays(env, s3, C.CMD_RESET);
    } else if !s.escape {
      hide Receive;
      ResetFrame(env, s);
      ResetFrame(env, s2);
    } else if s.rxPtr == RXBUFSZ - 1 {
      assert s1.rxPtr == RXBUFSZ;
      hide Receive;
      StuckStays(env, s1, C.CMD_RESET);
      StuckStays(env, s2, ESCAPE_CHAR);
      StuckStays(env, s3, C.CMD_RESET);
    } else {
      hide Receive;
      ResetTail(env, s);
      if s2.rxPtr == RXBUFSZ {
        StuckStays(env, s2, ESCAPE_CHAR);
        StuckStays(env, s3, C.CMD_RESET);
      } else {
        ResetFrame(env, s2);
      }
    }
  }

  /** The byte ends a negotiation because too much has come without a command. */
  predicate Fails(s: Station, b: u8) {
    !s.escape && b != ESCAPE_CHAR && s.change == Waiting && 10 < s.rxPtr < RXBUFSZ
  }

  /** What the loop sees of the bytes a host sends: all of them, but for those it drains unseen when a negotiation fails
      and they are there already. */
  ghost predicate Sees(env: Env, s: Station, es: seq<Event>, bytes: seq<u8>)
    requires ValidEnv(env) && ValidStation(s)
    decreases |es|
  {
    if es == [] then bytes == []
    else
      match es[0].rx
      case None => Sees(env, Poll(env, s, es[0]), es[1..], bytes)
      case Some(b) =>
        && bytes != [] && bytes[0] == b
        && exists k :: 1 <= k <= |bytes| && (k > 1 ==> Fails(s, b))
             && Sees(env, Poll(env, s, es[0]), es[1..], bytes[k..])
  }

  lemma {:induction false} SeesAll(env: Env, s: Station, es: seq<Event>)
    requires ValidEnv(env) && ValidStation(s)
    ensures Sees(env, s, es, RxOf(es))
    decreases |es|
  {
    hide Poll;
    if es != [] {
      SeesAll(env, Poll(env, s, es[0]), es[1..]);
      if es[0].rx.Some? {
        assert RxOf(es)[1..] == RxOf(es[1..]);
      } else {
        assert RxOf(es) == RxOf(es[1..]);
      }
    }
  }

  /** Inside an escape the first Reset is taken for data: there must be room for it, and no rate that waits for its
      confirmation or may begin to. */
  predicate ResetsWork(s: Station) {
    if s.escape then NoNewRate(s) && s.rxPtr <= RXBUFSZ - 3 else s.rxPtr < RXBUFSZ
  }

  /** The two Resets will have worked when the last `left` of their bytes are in. */
  predicate OnTheWay(s: Station, left: nat)
    requires left <= 4
  {
    match left
    case 0 => Synchronised(s)
    case 1 => s.escape && s.rxPtr < RXBUFSZ && (s.rxPtr == 0 || NoNewRate(s))
    case 2 => !s.escape && s.rxPtr < RXBUFSZ && (s.rxPtr == 0 || NoNewRate(s))
    case 3 => s.rxPtr < RXBUFSZ && (s.escape || (NoNewRate(s) && s.rxPtr <= RXBUFSZ - 2))
    case _ => ResetsWork(s)
  }

  predicate NoNewRate(s: Station) {
    s.change == Idle || s.change == Resetting
  }

  lemma AnswerOnTheWay(s: Station, code: u8)
    requires ValidStation(s)
    ensures var r := Answer(s, code); r.escape == s.escape && r.rxPtr == s.rxPtr && r.change == s.change
  {
    hide Stage;
    AnswerKeeps(s, code);
  }

  lemma ReceiveOnTheWay(env: Env, s: Station, left: nat)
    requires ValidEnv(env) && ValidStation(s) && 1 <= left <= 4 && OnTheWay(s, left)
    ensures OnTheWay(Receive(env, s, Some(if left % 2 == 0 then ESCAPE_CHAR else C.CMD_RESET)), left - 1)
  {
    hide Answer;
    AnswerOnTheWay(s.(change := Resetting), RES_CHANGE_BAUD_FAIL);
  }

  lemma SendOnTheWay(s: Station, left: nat)
    requires ValidStation(s) && left <= 4 && OnTheWay(s, left)
    ensures OnTheWay(Send(s), left)
  {
  }

  /** The last bytes of two Resets. */
  function Remaining(left: nat): seq<u8> {
    if left == 0 then [] else [if left % 2 == 0 then ESCAPE_CHAR else C.CMD_RESET] + Remaining(left - 1)
  }

  lemma FourRemaining()
    ensures Remaining(4) == TwoResets()
  {
    TwoResetsAre();
    assert Remaining(2) == [ESCAPE_CHAR, C.CMD_RESET] + Remaining(0);
    assert Remaining(4) == [ESCAPE_CHAR, C.CMD_RESET] + Remaining(2);
  }

  lemma {:induction false} RunOnTheWay(env: Env, s: Station, es: seq<Event>, left: nat)
    requires ValidEnv(env) && ValidStation(s) && left <= 4 && OnTheWay(s, left)
    requires Sees(env, s, es, Remaining(left))
    ensures Synchronised(Run(env, s, es))
    decreases |es|
  {
    hide Receive, Send;
    if es == [] {
      assert Synchronised(s);
    } else {
      var s1 := Receive(env, s, es[0].rx);
      var rest := if es[0].rx.Some? then left - 1 else left;
      if es[0].rx.Some? {
        assert !Fails(s, es[0].rx.value) && Remaining(left)[1..] == Remaining(left - 1);
        ReceiveOnTheWay(env, s, left);
      } else {
        NothingReceived(env, s);
      }
      hide OnTheWay;
      SendOnTheWay(s1, rest);
      RunOnTheWay(env, Poll(env, s, es[0]), es[1..], rest);
    }
  }

  lemma {:induction false} RxConcat(a: seq<Event>, b: seq<Event>)
    ensures RxOf(a + b) == RxOf(a) + RxOf(b)
    decreases |a|
  {
    if a == [] {
      assert a + b == b;
    } else {
      assert (a + b)[0] == a[0] && (a + b)[1..] == a[1..] + b;
      RxConcat(a[1..], b);
    }
  }

  lemma {:induction false} RxUnready(bytes: seq<u8>)
    ensures RxOf(Unready(bytes)) == bytes
    decreases |bytes|
  {
    if bytes != [] {
      assert Unready(bytes)[1..] == Unready(bytes[1..]);
      RxUnready(bytes[1..]);
    }
  }

  /** Polls that bring nothing and find the transmitter ready. */
  function Pauses(n: nat): (es: seq<Event>)
    ensures |es| == n
  {
    seq(n, _ => Event(None, true))
  }

  lemma {:induction false} PausesDrain(n: nat)
    ensures RxOf(Pauses(n)) == [] && Readies(Pauses(n)) == n
  {
    if n > 0 {
      assert Pauses(n)[1..] == Pauses(n - 1);
      PausesDrain(n - 1);
    }
  }

  /** Inside an escape and with a rate about to change: the first Reset is taken for data, the rate changes, and the
      second Reset is spent on giving it up. */
  lemma ResetsWasted(env: Env, s: Station) returns (es: seq<Event>)
    requires ValidEnv(env) && ValidStation(s) && s.escape && s.change == Changing && s.rxPtr <= RXBUFSZ - 3
    ensures RxOf(es) == TwoResets()
    ensures var r := Run(env, s, es); r.rxPtr == s.rxPtr + 2 && !r.escape && r.change == Resetting
  {
    hide Run, Take, Receive;
    var once := C.Wire(C.Reset);
    assert once == [ESCAPE_CHAR, C.CMD_RESET];
    TakeTwo(env, s, ESCAPE_CHAR, C.CMD_RESET);
    ResetTail(env, s);
    var s1 := Take(env, s, once);
    var pause := Pauses(s1.txLeft + 1);
    PausesDrain(s1.txLeft + 1);
    FinishedWhenDrained(env, s1, pause);
    var s2 := Run(env, s1, pause);
    TakeTwo(env, s2, ESCAPE_CHAR, C.CMD_RESET);
    ResetFrame(env, s2);
    es := Unready(once) + (pause + Unready(once));
    RxUnready(once);
    RxConcat(pause, Unready(once));
    RxConcat(Unready(once), pause + Unready(once));
    RunConcat(env, s, Unready(once), pause + Unready(once));
    RunConcat(env, s1, pause, Unready(once));
    UnreadyTakes(env, s, once);
    UnreadyTakes(env, s2, once);
  }

  lemma TakeTwo(env: Env, s: Station, a: u8, b: u8)
    requires ValidEnv(env) && ValidStation(s)
    ensures Take(env, s, [a, b]) == Receive(env, Receive(env, s, Some(a)), Some(b))
  {
    hide Receive;
    assert [a, b][1..] == [b] && [b][1..] == [];
    var s1 := Receive(env, s, Some(a));
    assert Take(env, s1, [b]) == Take(env, Receive(env, s1, Some(b)), []);
  }

  /** With a rate waiting, the first Reset taken for data is too much: the negotiation fails, and the second Reset is
      drained if it is there already. */
  lemma ResetsDrained(env: Env, s: Station) returns (es: seq<Event>)
    requires ValidEnv(env) && ValidStation(s) && s.escape && s.change == Waiting && 10 <= s.rxPtr <= RXBUFSZ - 2
    ensures Sees(env, s, es, TwoResets())
    ensures var r := Run(env, s, es); r.rxPtr == s.rxPtr + 1 && !r.escape && r.change == Resetting
  {
    TwoResetsAre();
    es := [Event(Some(ESCAPE_CHAR), false), Event(Some(C.CMD_RESET), false)];
    var s1 := Poll(env, s, es[0]);
    var s2 := Poll(env, s1, es[1]);
    assert s1 == Receive(env, s, Some(ESCAPE_CHAR)) && s2 == Receive(env, s1, Some(C.CMD_RESET));
    assert Fails(s1, C.CMD_RESET);
    ResetTail(env, s);
    hide Poll, Receive;
    assert es[1..] == [es[1]] && es[1..][1..] == [];
    assert TwoResets()[1..] == [C.CMD_RESET, ESCAPE_CHAR, C.CMD_RESET] && TwoResets()[1..][3..] == [];
    assert Sees(env, s2, [], TwoResets()[1..][3..]);
    assert Sees(env, s1, es[1..], TwoResets()[1..]);
    assert Run(env, s1, es[1..]) == Run(env, s2, []);
  }

  /** Two Reset commands, however the polls fall around their bytes, bring the station to the beginning of a packet
      exactly from these states: unlike the new decoder's, its state can be such that they do not. */
  lemma ResetsResynchroniseIff(env: Env, s: Station)
    requires ValidEnv(env) && ValidStation(s)
    ensures (forall es | Sees(env, s, es, TwoResets()) :: Synchronised(Run(env, s, es))) <==> ResetsWork(s)
  {
    hide Run, Take, Sees;
    if ResetsWork(s) {
      FourRemaining();
      forall es | Sees(env, s, es, TwoResets()) ensures Synchronised(Run(env, s, es)) {
        RunOnTheWay(env, s, es, 4);
      }
    } else if s.escape && s.change == Changing && s.rxPtr <= RXBUFSZ - 3 {
      var es := ResetsWasted(env, s);
      SeesAll(env, s, es);
    } else if s.escape && s.change == Waiting && 10 <= s.rxPtr <= RXBUFSZ - 2 {
      var es := ResetsDrained(env, s);
    } else {
      AtOnce(env, s);
      UnreadyTakes(env, s, TwoResets());
      RxUnready(TwoResets());
      SeesAll(env, s, Unready(TwoResets()));
    }
  }

  /** One such state is reached from start-up by proposing a rate and a stray escape: what two Resets then do depends
      on when the answer goes out. */
  lemma UnsynchronisedFromStart(env: Env, tx: seq<u8>, rx: seq<u8>, flash: seq<u8>, user: seq<u8>, rate: u32)
    returns (proposal: seq<Event>, resets: seq<Event>)
    requires |tx| == TXBUFSZ && |rx| == RXBUFSZ && |flash| == FLASH_SIZE && |user| == USER_PAGE_SIZE && ValidEnv(env)
    ensures ValidStation(Boot(tx, rx, flash, user))
    ensures RxOf(proposal) == C.Wire(C.ChangeBaud(C.Set, rate)) + [ESCAPE_CHAR] && RxOf(resets) == TwoResets()
    ensures var r := Run(env, Boot(tx, rx, flash, user), proposal + resets);
      !Synchronised(r) && r.rxPtr == 7 && r.change == Resetting
  {
    hide Run, Take, Execute, CommandFrame, C.Payload;
    var s, c := Boot(tx, rx, flash, user), C.ChangeBaud(C.Set, rate);
    var p, bytes := C.Payload(c), C.Wire(c) + [ESCAPE_CHAR];
    BootReady(tx, rx, flash, user);
    assert p == [SUBCMD_NEW] + LeU32(rate) by { ProposalIs(rate); }
    TakeConcat(env, s, C.Wire(c), [ESCAPE_CHAR]);
    TakeCommand(env, s, p, C.CMD_CHANGE_BAUD);
    ProposalPending(env, s, p, rate);
    TakeEscape(env, Take(env, s, C.Wire(c)));
    proposal := Unready(bytes);
    RxUnready(bytes);
    UnreadyTakes(env, s, bytes);
    resets := ResetsWasted(env, Take(env, s, bytes));
    RunConcat(env, s, proposal, resets);
  }

  lemma ProposalIs(rate: u32)
    ensures C.Payload(C.ChangeBaud(C.Set, rate)) == [SUBCMD_NEW] + LeU32(rate)
  {
  }
}
