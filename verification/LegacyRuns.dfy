/** Runs of the polling loop: bytes coming in, staged responses going out. */
module LegacyRuns {
  import opened Bytes
  import opened Framing
  import opened LegacyMachine

  lemma {:induction false} RunConcat(env: Env, s: Station, a: seq<Event>, b: seq<Event>)
    requires ValidEnv(env) && ValidStation(s)
    ensures Run(env, s, a + b) == Run(env, Run(env, s, a), b)
    decreases |a|
  {
    hide Poll;
    if a == [] {
      assert a + b == b;
    } else {
      assert (a + b)[0] == a[0] && (a + b)[1..] == a[1..] + b;
      RunConcat(env, Poll(env, s, a[0]), a[1..], b);
    }
  }

  /** The bytes received during a run. */
  function RxOf(es: seq<Event>): seq<u8> {
    if es == [] then []
    else (match es[0].rx case None => [] case Some(b) => [b]) + RxOf(es[1..])
  }

  /** How often the transmitter was ready. */
  function Readies(es: seq<Event>): nat {
    if es == [] then 0 else (if es[0].txReady then 1 else 0) + Readies(es[1..])
  }

  function Tagged(bytes: seq<u8>, rate: u32): (t: seq<Sent>)
    ensures |t| == |bytes|
  {
    seq(|bytes|, i requires 0 <= i < |bytes| => Sent(bytes[i], rate))
  }

  /** What is still to go out. */
  function Staged(s: Station): (p: seq<u8>)
    requires ValidStation(s)
    ensures |p| == s.txLeft
  {
    s.tx[s.txPtr..s.txPtr + s.txLeft]
  }

  /** Nothing to send and no rate to change: the transmitter's readiness makes no difference. */
  predicate Still(s: Station) {
    s.txLeft == 0 && (s.change == Idle || s.change == Waiting)
  }

  /** The byte makes the station stage a response in place of the one before. */
  predicate Restages(s: Station, b: u8) {
    s.rxPtr >= RXBUFSZ || (if s.escape then b != ESCAPE_CHAR
                           else b != ESCAPE_CHAR && s.change == Waiting && s.rxPtr > 10)
  }

  /** Other bytes only change the receive side. */
  lemma QuietByte(env: Env, s: Station, b: u8)
    requires ValidEnv(env) && ValidStation(s) && !Restages(s, b)
    ensures var r := Receive(env, s, Some(b));
      r == s.(escape := r.escape, rx := r.rx, rxPtr := r.rxPtr)
  {
  }

  ghost predicate Undisturbed(env: Env, s: Station, es: seq<Event>)
    requires ValidEnv(env) && ValidStation(s)
    decreases |es|
  {
    es == []
    || ((es[0].rx.Some? ==> !Restages(s, es[0].rx.value)) && Undisturbed(env, Poll(env, s, es[0]), es[1..]))
  }

  lemma SendNext(s: Station)
    requires ValidStation(s) && s.txLeft > 0
    ensures var r := Send(s);
      && Staged(s) == [s.tx[s.txPtr]] + Staged(r) && r.tx == s.tx && r.baud == s.baud
      && r.txPtr == s.txPtr + 1 && r.txLeft == s.txLeft - 1
      && r.sent == s.sent + Tagged([s.tx[s.txPtr]], s.baud)
  {
    assert Tagged([s.tx[s.txPtr]], s.baud) == [Sent(s.tx[s.txPtr], s.baud)];
  }

  lemma TaggedConcat(a: seq<u8>, b: seq<u8>, rate: u32)
    ensures Tagged(a + b, rate) == Tagged(a, rate) + Tagged(b, rate)
  {
  }

  lemma TaggedNothing(sent: seq<Sent>, rate: u32)
    ensures sent + Tagged([], rate) == sent
  {
  }

  /** One poll: either it sends the next staged byte at the current rate, or it sends nothing. */
  lemma QuietPoll(env: Env, s: Station, e: Event)
    requires ValidEnv(env) && ValidStation(s) && (e.rx.Some? ==> !Restages(s, e.rx.value))
    ensures var r := Poll(env, s, e);
      && r.tx == s.tx
      && (if e.txReady && s.txLeft > 0 then
            && r.txPtr == s.txPtr + 1 && r.txLeft == s.txLeft - 1
            && r.sent == s.sent + Tagged([s.tx[s.txPtr]], s.baud)
          else r.txPtr == s.txPtr && r.txLeft == s.txLeft && r.sent == s.sent)
      && (s.txLeft > 0 || !e.txReady ==>
            r.baud == s.baud && r.change == s.change && r.oldBaud == s.oldBaud && r.newBaud == s.newBaud)
  {
    if e.rx.Some? {
      QuietByte(env, s, e.rx.value);
    }
    var s1 := Receive(env, s, e.rx);
    if e.txReady && s.txLeft > 0 {
      SendNext(s1);
    }
  }

  lemma StagedSplits(tx: seq<u8>, ptr: nat, n: nat, sent: seq<Sent>, rate: u32)
    requires n > 0 && ptr + n <= |tx|
    ensures sent + Tagged([tx[ptr]], rate) + Tagged(tx[ptr + 1..ptr + n], rate) == sent + Tagged(tx[ptr..ptr + n], rate)
  {
    assert tx[ptr..ptr + n] == [tx[ptr]] + tx[ptr + 1..ptr + n];
    TaggedConcat([tx[ptr]], tx[ptr + 1..ptr + n], rate);
  }

  /** As long as nothing restages it, a response goes out byte by byte, in order, all of it at one rate, however the
      polls fall; the rate does not change before the last byte is out. */
  lemma {:induction false} GoesOutAtOneRate(env: Env, s: Station, es: seq<Event>)
    requires ValidEnv(env) && ValidStation(s) && Undisturbed(env, s, es)
    ensures var (r, n) := (Run(env, s, es), Min(s.txLeft, Readies(es)));
      && r.txLeft == s.txLeft - n && r.tx == s.tx && r.txPtr == s.txPtr + n
      && r.sent == s.sent + Tagged(s.tx[s.txPtr..s.txPtr + n], s.baud)
      && (Readies(es) <= s.txLeft ==> r.baud == s.baud && r.change == s.change && r.oldBaud == s.oldBaud)
    decreases |es|
  {
    hide Poll, Tagged;
    if es == [] {
      assert s.tx[s.txPtr..s.txPtr] == [];
      TaggedNothing(s.sent, s.baud);
    } else {
      QuietPoll(env, s, es[0]);
      var s1 := Poll(env, s, es[0]);
      GoesOutAtOneRate(env, s1, es[1..]);
      var n := Min(s.txLeft, Readies(es));
      if s.txLeft == 0 {
        assert s.tx[s.txPtr..s.txPtr] == [] && s1.tx[s1.txPtr..s1.txPtr] == [];
        TaggedNothing(s.sent, s.baud);
        TaggedNothing(s.sent, s1.baud);
      } else if es[0].txReady {
        StagedSplits(s.tx, s.txPtr, n, s.sent, s.baud);
      }
    }
  }

  /** Everything staged has gone out at the current rate, and then a pending change of rate has happened. */
  function Finished(s: Station): (r: Station)
    requires ValidStation(s)
    ensures ValidStation(r)
  {
    Send(s.(sent := s.sent + Tagged(Staged(s), s.baud), txPtr := s.txPtr + s.txLeft, txLeft := 0))
  }

  lemma FinishedNext(s: Station)
    requires ValidStation(s) && s.txLeft > 0
    ensures Finished(Send(s)) == Finished(s)
  {
    hide Tagged;
    SendNext(s);
    StagedSplits(s.tx, s.txPtr, s.txLeft, s.sent, s.baud);
  }

  lemma FinishedStays(s: Station)
    requires ValidStation(s) && s.txLeft == 0
    ensures Finished(s) == Send(s) && Send(Send(s)) == Send(s) && Still(Send(s))
  {
    assert Staged(s) == [];
    TaggedNothing(s.sent, s.baud);
  }

  lemma {:induction false} StillStays(env: Env, s: Station, es: seq<Event>)
    requires ValidEnv(env) && ValidStation(s) && Still(s) && RxOf(es) == []
    ensures Run(env, s, es) == s
    decreases |es|
  {
    if es != [] {
      StillStays(env, s, es[1..]);
    }
  }

  /** Polls that bring nothing, and find the transmitter ready once more than there are bytes. */
  lemma {:induction false} FinishedWhenDrained(env: Env, s: Station, es: seq<Event>)
    requires ValidEnv(env) && ValidStation(s) && RxOf(es) == [] && Readies(es) > s.txLeft
    ensures Run(env, s, es) == Finished(s)
    decreases |es|
  {
    hide Send, Finished, Receive;
    NothingReceived(env, s);
    assert es[0].rx.None? && RxOf(es[1..]) == [];
    if !es[0].txReady {
      FinishedWhenDrained(env, s, es[1..]);
    } else if s.txLeft > 0 {
      FinishedNext(s);
      SendNext(s);
      FinishedWhenDrained(env, Send(s), es[1..]);
    } else {
      FinishedStays(s);
      StillStays(env, Send(s), es[1..]);
    }
  }

  // ---- bytes coming in while nothing is sent ---------------------------------------------

  /** A byte string received without the transmitter being looked at. */
  function Take(env: Env, s: Station, bytes: seq<u8>): (r: Station)
    requires ValidEnv(env) && ValidStation(s)
    ensures ValidStation(r)
    decreases |bytes|
  {
    if bytes == [] then s else Take(env, Receive(env, s, Some(bytes[0])), bytes[1..])
  }

  predicate QuietBytes(env: Env, s: Station, bytes: seq<u8>)
    requires ValidEnv(env) && ValidStation(s)
    decreases |bytes|
  {
    bytes == [] || (!Restages(s, bytes[0]) && QuietBytes(env, Receive(env, s, Some(bytes[0])), bytes[1..]))
  }

  lemma {:induction false} TakeConcat(env: Env, s: Station, a: seq<u8>, b: seq<u8>)
    requires ValidEnv(env) && ValidStation(s)
    ensures Take(env, s, a + b) == Take(env, Take(env, s, a), b)
    ensures QuietBytes(env, s, a) && QuietBytes(env, Take(env, s, a), b) ==> QuietBytes(env, s, a + b)
    decreases |a|
  {
    hide Receive, Restages;
    if a == [] {
      assert a + b == b;
    } else {
      assert (a + b)[0] == a[0] && (a + b)[1..] == a[1..] + b;
      TakeConcat(env, Receive(env, s, Some(a[0])), a[1..], b);
    }
  }

  lemma StillPoll(env: Env, s: Station, e: Event)
    requires ValidEnv(env) && ValidStation(s) && Still(s) && (e.rx.Some? ==> !Restages(s, e.rx.value))
    ensures Poll(env, s, e) == Receive(env, s, e.rx) && Still(Poll(env, s, e))
  {
    if e.rx.Some? {
      QuietByte(env, s, e.rx.value);
    }
  }

  /** However the polls fall around them, the bytes have the same effect. */
  lemma {:induction false} StillRun(env: Env, s: Station, es: seq<Event>)
    requires ValidEnv(env) && ValidStation(s) && Still(s) && QuietBytes(env, s, RxOf(es))
    ensures Run(env, s, es) == Take(env, s, RxOf(es)) && Still(Run(env, s, es))
    decreases |es|
  {
    hide Receive, Poll, Restages, Still;
    if es != [] {
      var later := RxOf(es[1..]);
      if es[0].rx.Some? {
        assert RxOf(es)[0] == es[0].rx.value && RxOf(es)[1..] == later;
        StillPoll(env, s, es[0]);
      } else {
        assert RxOf(es) == later;
        StillPoll(env, s, es[0]);
        NothingReceived(env, s);
      }
      StillRun(env, Poll(env, s, es[0]), es[1..]);
    }
  }

  lemma NothingReceived(env: Env, s: Station)
    requires ValidEnv(env) && ValidStation(s)
    ensures Receive(env, s, None) == s
  {
  }

  /** Room for `n` more payload bytes, and no failed negotiation while they come in. */
  predicate Accepts(s: Station, n: nat) {
    !s.escape && s.rxPtr + n < RXBUFSZ && (s.change == Waiting ==> s.rxPtr + n <= 11)
  }

  function Loaded(s: Station, p: seq<u8>): Station
    requires ValidStation(s) && s.rxPtr + |p| <= RXBUFSZ
  {
    s.(rx := Splice(s.rx, s.rxPtr, p), rxPtr := s.rxPtr + |p|)
  }

  lemma TakeOne(env: Env, s: Station, b: u8)
    requires ValidEnv(env) && ValidStation(s) && Accepts(s, 1)
    ensures Take(env, s, EscapeByte(b)) == Loaded(s, [b]) && QuietBytes(env, s, EscapeByte(b))
  {
    var s1 := Receive(env, s, Some(b));
    if b == ESCAPE_CHAR {
      var s2 := Receive(env, s1, Some(b));
      assert [b, b][1..] == [b] && [b][1..] == [];
      assert Take(env, s1, [b]) == Take(env, s2, []) == s2;
      assert QuietBytes(env, s2, []) && QuietBytes(env, s1, [b]);
      assert s2.rx == Splice(s.rx, s.rxPtr, [b]);
    } else {
      assert [b][1..] == [];
      assert Take(env, s, [b]) == Take(env, s1, []) == s1;
      assert QuietBytes(env, s1, []);
      assert s1.rx == Splice(s.rx, s.rxPtr, [b]);
    }
  }

  lemma LoadedMore(s: Station, p: seq<u8>)
    requires ValidStation(s) && p != [] && s.rxPtr + |p| <= RXBUFSZ
    ensures ValidStation(Loaded(s, [p[0]])) && Loaded(Loaded(s, [p[0]]), p[1..]) == Loaded(s, p)
  {
    assert Splice(Splice(s.rx, s.rxPtr, [p[0]]), s.rxPtr + 1, p[1..]) == Splice(s.rx, s.rxPtr, p);
  }

  /** An escaped payload is loaded unescaped. */
  lemma {:induction false} TakePayload(env: Env, s: Station, p: seq<u8>)
    requires ValidEnv(env) && ValidStation(s) && Accepts(s, |p|)
    ensures Take(env, s, Escape(p)) == Loaded(s, p) && QuietBytes(env, s, Escape(p))
    decreases |p|
  {
    if p == [] {
      assert Splice(s.rx, s.rxPtr, []) == s.rx;
    } else {
      TakeOne(env, s, p[0]);
      var s1 := Loaded(s, [p[0]]);
      LoadedMore(s, p);
      TakeConcat(env, s, EscapeByte(p[0]), Escape(p[1..]));
      TakePayload(env, s1, p[1..]);
    }
  }

  lemma TakeEscape(env: Env, s: Station)
    requires ValidEnv(env) && ValidStation(s) && !s.escape && s.rxPtr < RXBUFSZ
    ensures Take(env, s, [ESCAPE_CHAR]) == s.(escape := true) && QuietBytes(env, s, [ESCAPE_CHAR])
  {
    var s1 := Receive(env, s, Some(ESCAPE_CHAR));
    assert [ESCAPE_CHAR][1..] == [];
    assert Take(env, s, [ESCAPE_CHAR]) == Take(env, s1, []) && QuietBytes(env, s1, []);
  }

  /** All of a command but its last byte. */
  lemma CommandLoaded(env: Env, s: Station, p: seq<u8>, es: seq<Event>)
    requires ValidEnv(env) && ValidStation(s) && Still(s) && Accepts(s, |p|)
    requires RxOf(es) == Escape(p) + [ESCAPE_CHAR]
    ensures Run(env, s, es) == Loaded(s, p).(escape := true)
  {
    hide Receive, Restages;
    TakePayload(env, s, p);
    TakeEscape(env, Loaded(s, p));
    TakeConcat(env, s, Escape(p), [ESCAPE_CHAR]);
    StillRun(env, s, es);
  }
}
