/** Negotiating a baud rate: what every run keeps, and how a negotiation ends. */
module LegacyBaud {
  import opened Bytes
  import opened Framing
  import opened R = Responses
  import opened LegacyMachine
  import opened LegacyRuns
  import C = Commands

  /** The byte is the last of a command that confirms the rate in use. */
  predicate Confirms(s: Station, b: u8)
    requires ValidStation(s)
  {
    && s.change == Waiting && b == CMD_CHANGE_BAUD
    && s.rxPtr == 10 && s.rx[5] == SUBCMD_CONFIRM && RxU32(s, 6) == s.baud
  }

  predicate Proposes(s: Station, b: u8)
    requires ValidStation(s)
  {
    s.change == Idle && b == CMD_CHANGE_BAUD && s.rxPtr == 5 && s.rx[0] == SUBCMD_NEW
  }

  /** The two change-of-rate commands that are refused without ending the negotiation. */
  predicate Overlooked(s: Station, b: u8)
    requires ValidStation(s)
  {
    b == CMD_CHANGE_BAUD && (s.rxPtr < 5 || (s.rxPtr == 5 && s.rx[0] == SUBCMD_NEW))
  }

  lemma AnswerKeeps(s: Station, code: u8)
    requires ValidStation(s)
    ensures Answer(s, code) == s.(txPtr := 0, txLeft := 2, tx := Answer(s, code).tx)
    ensures Answer(s, code).tx[..2] == [ESCAPE_CHAR, code]
  {
    assert ResponseFrame(code, []) == [ESCAPE_CHAR, code];
  }

  lemma ChangeBaudSteps(s: Station)
    requires ValidStation(s)
    ensures var r := ChangeBaud(s);
      && r.baud == s.baud && r.oldBaud == s.oldBaud && r.sent == s.sent && r.txLeft == 2
      && (s.change == Idle ==> r.change == if Proposes(s, CMD_CHANGE_BAUD) then Changing else Idle)
      && (Proposes(s, CMD_CHANGE_BAUD) ==> r.newBaud == RxU32(s, 1))
      && (s.change == Changing || s.change == Resetting ==> r.change == s.change)
      && (s.change == Waiting ==>
            r.change == (if Confirms(s, CMD_CHANGE_BAUD) then Idle
                         else if Overlooked(s, CMD_CHANGE_BAUD) then Waiting else Resetting))
      && (!Proposes(s, CMD_CHANGE_BAUD) ==> r.newBaud == s.newBaud)
  {
    hide Answer;
    AnswerKeeps(s, RES_BADARGS);
    AnswerKeeps(s, RES_INTERROR);
    AnswerKeeps(s.(change := Idle), RES_OK);
    AnswerKeeps(s.(change := Resetting), RES_CHANGE_BAUD_FAIL);
    AnswerKeeps(s.(change := Changing, newBaud := RxU32(s, 1)), RES_OK);
  }

  /** Commands other than a change of rate leave the rates alone. */
  predicate SameRates(s: Station, r: Station) {
    r.baud == s.baud && r.oldBaud == s.oldBaud && r.newBaud == s.newBaud && r.change == s.change && r.sent == s.sent
  }

  lemma StageKeeps(s: Station, dat: seq<u8>, cmd: u8)
    requires ValidStation(s)
    ensures SameRates(s, Stage(s, dat, cmd)) && Stage(s, dat, cmd).txLeft >= 2
  {
  }

  lemma OtherCommandKeeps(env: Env, s: Station, b: u8)
    requires ValidEnv(env) && ValidStation(s) && b != CMD_CHANGE_BAUD && s.change != Waiting
    ensures SameRates(s, Execute(env, s, b))
  {
    hide Stage, BytesAt;
    forall dat, cmd, x: Station | ValidStation(x) && SameRates(s, x) ensures SameRates(s, Stage(x, dat, cmd)) {
      StageKeeps(x, dat, cmd);
    }
  }

  /** What a command does to the negotiation, in each of its states. */
  lemma ExecuteSteps(env: Env, s: Station, b: u8)
    requires ValidEnv(env) && ValidStation(s)
    ensures var r := Execute(env, s, b);
      && r.baud == s.baud && r.oldBaud == s.oldBaud && r.sent == s.sent
      && (r.change != s.change ==> r.txLeft == 2)
      && (match s.change
          case Idle => r.change == if Proposes(s, b) then Changing else Idle
          case Waiting => r.change == if Confirms(s, b) then Idle else if Overlooked(s, b) then Waiting else Resetting
          case _ => r.change == s.change)
      && (Proposes(s, b) ==> r.newBaud == RxU32(s, 1))
      && (!Proposes(s, b) ==> r.newBaud == s.newBaud)
  {
    if b == CMD_CHANGE_BAUD {
      ChangeBaudSteps(s);
    } else if s.change == Waiting {
      AnswerKeeps(s.(change := Resetting), RES_CHANGE_BAUD_FAIL);
    } else {
      OtherCommandKeeps(env, s, b);
    }
  }

  // ---- over all runs ----------------------------------------------------------------------

  /** The command byte a poll completes, if any: the byte after an escape, or 0 when too much arrives. */
  function Completes(s: Station, rx: Option<u8>): Option<u8>
    requires ValidStation(s)
  {
    match rx
    case None => None
    case Some(b) =>
      if s.rxPtr >= RXBUFSZ then None
      else if s.escape then (if b == ESCAPE_CHAR then None else Some(b))
      else if b != ESCAPE_CHAR && s.change == Waiting && s.rxPtr > 10 then Some(0)
      else None
  }

  /** The last rate a host has confirmed. */
  function ConfirmedAfter(s: Station, e: Event, confirmed: u32): u32
    requires ValidStation(s)
  {
    match Completes(s, e.rx)
    case None => confirmed
    case Some(b) => if Confirms(s, b) then s.baud else confirmed
  }

  /** With no unconfirmed rate in use the rate is the last confirmed one; otherwise that one is remembered. */
  predicate Anchored(s: Station, confirmed: u32) {
    confirmed == if s.change == Waiting || s.change == Resetting then s.oldBaud else s.baud
  }

  lemma ReceiveSteps(env: Env, s: Station, rx: Option<u8>)
    requires ValidEnv(env) && ValidStation(s)
    ensures var r := Receive(env, s, rx);
      && r.baud == s.baud && r.oldBaud == s.oldBaud && r.sent == s.sent
      && (r.change != s.change ==> r.txLeft == 2)
      && match Completes(s, rx)
         case None => r.change == s.change && r.newBaud == s.newBaud
         case Some(b) => r.change == Execute(env, s, b).change && r.newBaud == Execute(env, s, b).newBaud
  {
    hide Execute;
    if rx.Some? && Completes(s, rx).Some? {
      ExecuteSteps(env, s, Completes(s, rx).value);
    }
  }

  lemma PollKeepsAnchored(env: Env, s: Station, e: Event, confirmed: u32)
    requires ValidEnv(env) && ValidStation(s) && Anchored(s, confirmed)
    ensures Anchored(Poll(env, s, e), ConfirmedAfter(s, e, confirmed))
  {
    hide Execute, Receive;
    ReceiveSteps(env, s, e.rx);
    if Completes(s, e.rx).Some? {
      ExecuteSteps(env, s, Completes(s, e.rx).value);
    }
  }

  function RunConfirmed(env: Env, s: Station, es: seq<Event>, confirmed: u32): u32
    requires ValidEnv(env) && ValidStation(s)
    decreases |es|
  {
    if es == [] then confirmed
    else RunConfirmed(env, Poll(env, s, es[0]), es[1..], ConfirmedAfter(s, es[0], confirmed))
  }

  /** In every run: outside a negotiation the configured rate is the last confirmed rate, and during one that rate
      is kept to go back to. */
  lemma {:induction false} RunKeepsAnchored(env: Env, s: Station, es: seq<Event>, confirmed: u32)
    requires ValidEnv(env) && ValidStation(s) && Anchored(s, confirmed)
    ensures Anchored(Run(env, s, es), RunConfirmed(env, s, es, confirmed))
    decreases |es|
  {
    hide Poll, ConfirmedAfter;
    if es != [] {
      PollKeepsAnchored(env, s, es[0], confirmed);
      RunKeepsAnchored(env, Poll(env, s, es[0]), es[1..], ConfirmedAfter(s, es[0], confirmed));
    }
  }

  /** The rate changes only in a poll that finds nothing left to send, and then to the proposed rate or back. */
  lemma RateChangesWhenSent(env: Env, s: Station, e: Event)
    requires ValidEnv(env) && ValidStation(s) && Poll(env, s, e).baud != s.baud
    ensures var r := Poll(env, s, e);
      && r.txLeft == 0 && r.sent == s.sent && e.txReady && Receive(env, s, e.rx).txLeft == 0
      && ((s.change == Changing && r.change == Waiting && r.baud == s.newBaud && r.oldBaud == s.baud)
          || (s.change == Resetting && r.change == Idle && r.baud == s.oldBaud))
  {
    hide Execute, Receive;
    ReceiveSteps(env, s, e.rx);
    if Completes(s, e.rx).Some? {
      ExecuteSteps(env, s, Completes(s, e.rx).value);
    }
  }

  /** An unconfirmed rate stays in use until it is confirmed by a command that names it, or given up for the rate
      before it: which, is decided by the first command other than the two that are overlooked. */
  lemma WaitingEnds(env: Env, s: Station, e: Event)
    requires ValidEnv(env) && ValidStation(s) && s.change == Waiting
    ensures var (r, done) := (Poll(env, s, e), Completes(s, e.rx));
      && r.baud == s.baud && r.oldBaud == s.oldBaud
      && (r.change == Idle <==> done.Some? && Confirms(s, done.value))
      && (r.change == Waiting <==> done.None? || (!Confirms(s, done.value) && Overlooked(s, done.value)))
      && (r.change == Resetting <==> done.Some? && !Confirms(s, done.value) && !Overlooked(s, done.value))
  {
    hide Execute, Receive;
    ReceiveSteps(env, s, e.rx);
    if Completes(s, e.rx).Some? {
      ExecuteSteps(env, s, Completes(s, e.rx).value);
    }
  }

  /** While an unconfirmed rate is being given up, whatever else arrives, it ends only at the rate before it. */
  lemma ResettingEnds(env: Env, s: Station, e: Event)
    requires ValidEnv(env) && ValidStation(s) && s.change == Resetting
    ensures var r := Poll(env, s, e);
      || (r.change == Resetting && r.baud == s.baud && r.oldBaud == s.oldBaud)
      || (r.change == Idle && r.baud == s.oldBaud)
  {
    hide Execute, Receive;
    ReceiveSteps(env, s, e.rx);
    if Completes(s, e.rx).Some? {
      ExecuteSteps(env, s, Completes(s, e.rx).value);
    }
  }

  // ---- a whole negotiation ---------------------------------------------------------------------

  /** Between commands, with an empty receive buffer and no negotiation under way. */
  predicate Clean(s: Station) {
    ValidStation(s) && Still(s) && s.change == Idle && !s.escape && s.rxPtr == 0
  }

  /** The polls of one command: its bytes but the last, the poll that brings the last, and polls without reception
      until everything staged is out and the transmitter was found ready once more. */
  datatype Turn = Turn(bringing: seq<Event>, ready: bool, sending: seq<Event>)

  function Events(t: Turn, code: u8): seq<Event> {
    t.bringing + ([Event(Some(code), t.ready)] + t.sending)
  }

  predicate Brings(t: Turn, payload: seq<u8>) {
    RxOf(t.bringing) == Escape(payload) + [ESCAPE_CHAR] && RxOf(t.sending) == []
  }

  predicate Outlasts(t: Turn, n: nat) {
    (if t.ready then 1 else 0) + Readies(t.sending) > n
  }

  lemma TurnRuns(env: Env, s: Station, t: Turn, code: u8, p: seq<u8>)
    requires ValidEnv(env) && ValidStation(s) && Still(s) && Accepts(s, |p|) && Brings(t, p) && code != ESCAPE_CHAR
    requires Outlasts(t, Execute(env, Loaded(s, p).(escape := true), code).txLeft)
    ensures Run(env, s, Events(t, code)) == Finished(Execute(env, Loaded(s, p).(escape := true), code).(escape := false))
  {
    hide Execute, Finished;
    var s1 := Loaded(s, p).(escape := true);
    CommandLoaded(env, s, p, t.bringing);
    RunConcat(env, s, t.bringing, [Event(Some(code), t.ready)] + t.sending);
    var s2 := Receive(env, s1, Some(code));
    PollSplits(env, s1, code, t.ready, t.sending);
    FinishedWhenDrained(env, s2, [Event(None, t.ready)] + t.sending);
  }

  lemma PollSplits(env: Env, s: Station, code: u8, ready: bool, es: seq<Event>)
    requires ValidEnv(env) && ValidStation(s) && RxOf(es) == []
    ensures Run(env, s, [Event(Some(code), ready)] + es)
      == Run(env, Receive(env, s, Some(code)), [Event(None, ready)] + es)
    ensures RxOf([Event(None, ready)] + es) == []
    ensures Readies([Event(None, ready)] + es) == (if ready then 1 else 0) + Readies(es)
  {
    hide Receive, Send;
    assert ([Event(Some(code), ready)] + es)[1..] == es && ([Event(None, ready)] + es)[1..] == es;
    NothingReceived(env, Receive(env, s, Some(code)));
  }

  /** A proposed rate is answered at the old rate and then put to use; the next command confirms it, or it is given
      up; either way the answer goes out at the new rate. */
  lemma Negotiated(env: Env, s: Station, t1: Turn, t2: Turn, rate: u32, claim: u32)
    requires ValidEnv(env) && Clean(s)
    requires Brings(t1, C.Payload(C.ChangeBaud(C.Set, rate))) && Outlasts(t1, 2)
    requires Brings(t2, C.Payload(C.ChangeBaud(C.Verify, claim))) && Outlasts(t2, 2)
    ensures var r := Run(env, s, Events(t1, C.CMD_CHANGE_BAUD) + Events(t2, C.CMD_CHANGE_BAUD));
      && ValidStation(r) && Still(r) && r.change == Idle
      && r.baud == (if claim == rate then rate else s.baud)
      && r.sent == s.sent + Tagged([ESCAPE_CHAR, RES_OK], s.baud)
           + Tagged([ESCAPE_CHAR, if claim == rate then RES_OK else RES_CHANGE_BAUD_FAIL], rate)
  {
    hide Run, Events, Brings, Outlasts, Escape;
    RunConcat(env, s, Events(t1, C.CMD_CHANGE_BAUD), Events(t2, C.CMD_CHANGE_BAUD));
    var p1, p2 := C.Payload(C.ChangeBaud(C.Set, rate)), C.Payload(C.ChangeBaud(C.Verify, claim));
    Proposed(env, s, p1, rate);
    TurnRuns(env, s, t1, C.CMD_CHANGE_BAUD, p1);
    var s1 := Run(env, s, Events(t1, C.CMD_CHANGE_BAUD));
    Verified(env, s1, p2, claim);
    TurnRuns(env, s1, t2, C.CMD_CHANGE_BAUD, p2);
  }

  lemma Proposed(env: Env, s: Station, p: seq<u8>, rate: u32)
    requires ValidEnv(env) && Clean(s) && p == [SUBCMD_NEW] + LeU32(rate)
    ensures var r := Execute(env, Loaded(s, p).(escape := true), CMD_CHANGE_BAUD).(escape := false);
      && r.txLeft == 2
      && var f := Finished(r);
        && ValidStation(f) && Still(f) && f.change == Waiting && f.baud == rate && f.oldBaud == s.baud && !f.escape
        && f.rxPtr == 5 && f.rx[0] == SUBCMD_NEW && f.sent == s.sent + Tagged([ESCAPE_CHAR, RES_OK], s.baud)
  {
    var s1 := Loaded(s, p).(escape := true);
    assert s1.rx[1..5] == LeU32(rate);
    LeU32RoundTrip(rate, [0, 0, 0, 0]);
    hide Answer, Splice;
    AnswerKeeps(s1.(change := Changing, newBaud := rate), RES_OK);
  }

  lemma Verified(env: Env, s: Station, p: seq<u8>, claim: u32)
    requires ValidEnv(env) && ValidStation(s) && Still(s) && s.change == Waiting && !s.escape && s.rxPtr == 5
    requires p == [SUBCMD_CONFIRM] + LeU32(claim)
    ensures var r := Execute(env, Loaded(s, p).(escape := true), CMD_CHANGE_BAUD).(escape := false);
      && r.txLeft == 2
      && var f := Finished(r);
        && ValidStation(f) && Still(f) && f.change == Idle && f.baud == (if claim == s.baud then s.baud else s.oldBaud)
        && f.sent == s.sent
             + Tagged([ESCAPE_CHAR, if claim == s.baud then RES_OK else RES_CHANGE_BAUD_FAIL], s.baud)
  {
    var s1 := Loaded(s, p).(escape := true);
    assert s1.rx[6..10] == LeU32(claim) && s1.rx[5] == SUBCMD_CONFIRM;
    LeU32RoundTrip(claim, [0, 0, 0, 0]);
    hide Answer, Splice;
    AnswerKeeps(s1.(change := Idle), RES_OK);
    AnswerKeeps(s1.(change := Resetting), RES_CHANGE_BAUD_FAIL);
  }

  // ---- a rate kept by a command that is refused -------------------------------------------------

  /** A change-of-rate command that brings no data finds the one before it still in the receive buffer, or too little,
      and is refused at the waiting rate, which stays in use. */
  lemma RefusedTurn(env: Env, s: Station, t: Turn)
    requires ValidEnv(env) && ValidStation(s) && Still(s) && s.change == Waiting && !s.escape
    requires s.rxPtr < 5 || (s.rxPtr == 5 && s.rx[0] == SUBCMD_NEW)
    requires Brings(t, []) && Outlasts(t, 2)
    ensures var r := Run(env, s, Events(t, C.CMD_CHANGE_BAUD));
      && r.change == Waiting && r.baud == s.baud && r.oldBaud == s.oldBaud
      && r.sent == s.sent + Tagged([ESCAPE_CHAR, if s.rxPtr < 5 then RES_BADARGS else RES_INTERROR], s.baud)
  {
    var s1 := Loaded(s, []).(escape := true);
    assert s1.rx == s.rx;
    AnswerKeeps(s1, RES_BADARGS);
    AnswerKeeps(s1, RES_INTERROR);
    hide Run, Events, Brings, Outlasts, Answer;
    TurnRuns(env, s, t, C.CMD_CHANGE_BAUD, []);
  }

  /** A new rate is proposed and put to use, and the command byte comes again with nothing before it: the unconfirmed
      rate survives. */
  lemma KeptAfterRepeat(env: Env, s: Station, t1: Turn, t2: Turn, rate: u32)
    requires ValidEnv(env) && Clean(s)
    requires Brings(t1, C.Payload(C.ChangeBaud(C.Set, rate))) && Outlasts(t1, 2)
    requires Brings(t2, []) && Outlasts(t2, 2)
    ensures var r := Run(env, s, Events(t1, C.CMD_CHANGE_BAUD) + Events(t2, C.CMD_CHANGE_BAUD));
      && r.change == Waiting && r.baud == rate && r.oldBaud == s.baud
      && r.sent == s.sent + Tagged([ESCAPE_CHAR, RES_OK], s.baud) + Tagged([ESCAPE_CHAR, RES_INTERROR], rate)
  {
    hide Run, Events, Brings, Outlasts, Escape;
    RunConcat(env, s, Events(t1, C.CMD_CHANGE_BAUD), Events(t2, C.CMD_CHANGE_BAUD));
    var p := C.Payload(C.ChangeBaud(C.Set, rate));
    Proposed(env, s, p, rate);
    TurnRuns(env, s, t1, C.CMD_CHANGE_BAUD, p);
    RefusedTurn(env, Run(env, s, Events(t1, C.CMD_CHANGE_BAUD)), t2);
  }

  /** Bytes that come in while the transmitter is never ready. */
  function Unready(bytes: seq<u8>): (es: seq<Event>)
    ensures |es| == |bytes|
  {
    seq(|bytes|, i requires 0 <= i < |bytes| => Event(Some(bytes[i]), false))
  }

  lemma {:induction false} UnreadyTakes(env: Env, s: Station, bytes: seq<u8>)
    requires ValidEnv(env) && ValidStation(s)
    ensures Run(env, s, Unready(bytes)) == Take(env, s, bytes)
    decreases |bytes|
  {
    hide Receive;
    if bytes != [] {
      assert Unready(bytes)[1..] == Unready(bytes[1..]);
      UnreadyTakes(env, Receive(env, s, Some(bytes[0])), bytes[1..]);
    }
  }

  lemma TakeCommand(env: Env, s: Station, p: seq<u8>, code: u8)
    requires ValidEnv(env) && ValidStation(s) && Accepts(s, |p|) && code != ESCAPE_CHAR
    ensures Take(env, s, CommandFrame(p, code)) == Execute(env, Loaded(s, p).(escape := true), code).(escape := false)
  {
    hide Receive, Execute;
    TakePayload(env, s, p);
    var s1 := Loaded(s, p);
    TakeEscape(env, s1);
    var s2 := s1.(escape := true);
    TakeConcat(env, s, Escape(p), [ESCAPE_CHAR, code]);
    TakeConcat(env, s1, [ESCAPE_CHAR], [code]);
    assert [ESCAPE_CHAR] + [code] == [ESCAPE_CHAR, code] && [code][1..] == [];
    LastByteExecutes(env, s2, code);
    assert Take(env, s2, [code]) == Take(env, Receive(env, s2, Some(code)), []);
  }

  lemma LastByteExecutes(env: Env, s: Station, code: u8)
    requires ValidEnv(env) && ValidStation(s) && s.escape && s.rxPtr < RXBUFSZ && code != ESCAPE_CHAR
    ensures Receive(env, s, Some(code)) == Execute(env, s, code).(escape := false)
  {
    hide Execute;
  }

  /** A proposal and a Reset that comes before its answer is out: the answer is never sent, the rate changes all the
      same, and a bare change-of-rate command leaves it in use. */
  lemma KeptAfterReset(env: Env, s: Station, rate: u32, drained: seq<Event>, t: Turn)
    requires ValidEnv(env) && Clean(s) && RxOf(drained) == [] && Readies(drained) > 0
    requires Brings(t, []) && Outlasts(t, 2)
    ensures var r := Run(env, s,
        Unready(C.Wire(C.ChangeBaud(C.Set, rate)) + C.Wire(C.Reset)) + (drained + Events(t, C.CMD_CHANGE_BAUD)));
      && r.change == Waiting && r.baud == rate && r.oldBaud == s.baud
      && r.sent == s.sent + Tagged([ESCAPE_CHAR, RES_BADARGS], rate)
  {
    hide Run, Events, Brings, Outlasts, Take, Execute, CommandFrame;
    var p := C.Payload(C.ChangeBaud(C.Set, rate));
    var bytes := C.Wire(C.ChangeBaud(C.Set, rate)) + C.Wire(C.Reset);
    RunConcat(env, s, Unready(bytes), drained + Events(t, C.CMD_CHANGE_BAUD));
    UnreadyTakes(env, s, bytes);
    TakeConcat(env, s, C.Wire(C.ChangeBaud(C.Set, rate)), C.Wire(C.Reset));
    TakeCommand(env, s, p, C.CMD_CHANGE_BAUD);
    var s1 := Take(env, s, C.Wire(C.ChangeBaud(C.Set, rate)));
    ProposalPending(env, s, p, rate);
    TakeCommand(env, s1, [], C.CMD_RESET);
    var s2 := Take(env, s1, C.Wire(C.Reset));
    ResetPending(env, s1);
    RunConcat(env, s2, drained, Events(t, C.CMD_CHANGE_BAUD));
    FinishedWhenDrained(env, s2, drained);
    DrainedChanges(s2);
    RefusedTurn(env, Run(env, s2, drained), t);
  }

  lemma ProposalPending(env: Env, s: Station, p: seq<u8>, rate: u32)
    requires ValidEnv(env) && Clean(s) && p == [SUBCMD_NEW] + LeU32(rate)
    ensures var r := Execute(env, Loaded(s, p).(escape := true), CMD_CHANGE_BAUD).(escape := false);
      && ValidStation(r) && r.change == Changing && r.newBaud == rate && r.baud == s.baud && r.sent == s.sent
      && !r.escape && r.rxPtr == 5
  {
    var s1 := Loaded(s, p).(escape := true);
    assert s1.rx[1..5] == LeU32(rate);
    LeU32RoundTrip(rate, [0, 0, 0, 0]);
    hide Answer, Splice;
    AnswerKeeps(s1.(change := Changing, newBaud := rate), RES_OK);
  }

  lemma ResetPending(env: Env, s: Station)
    requires ValidEnv(env) && ValidStation(s) && s.change == Changing && s.rxPtr < RXBUFSZ && !s.escape
    ensures Execute(env, Loaded(s, []).(escape := true), C.CMD_RESET).(escape := false)
      == s.(txLeft := 0, rxPtr := 0)
  {
    assert Splice(s.rx, s.rxPtr, []) == s.rx;
  }

  lemma DrainedChanges(s: Station)
    requires ValidStation(s) && s.change == Changing && s.txLeft == 0
    ensures Finished(s) == s.(change := Waiting, oldBaud := s.baud, baud := s.newBaud)
  {
    TaggedNothing(s.sent, s.baud);
  }
}
