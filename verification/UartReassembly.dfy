/** `UartReceiveMultipleTimeout`: fragments are collected into the client's buffer until a timeout aborts
    the receive. */
module UartReassembly {
  import opened Bytes

  datatype State = Idle | Receiving

  /** The result code of a `received_buffer` callback. */
  datatype Status = Fine | Cancelled | OtherError

  datatype Fragment = Fragment(bytes: seq<u8>, status: Status)

  /** The capsule and the driver below it. `spare` is the length of the driver's buffer while the capsule
      holds it, `asked` what the driver was asked to receive while the driver holds it. */
  datatype Capsule = Capsule(
    state: State, spare: Option<nat>, asked: Option<nat>, client: Option<seq<u8>>, index: nat, alarms: nat)

  datatype Delivery = Delivery(buffer: seq<u8>, length: nat)

  predicate ValidCapsule(c: Capsule) {
    c.client.Some? ==> c.index <= |c.client.value|
  }

  /** `receive_automatic`: `BUSY` while a receive is under way. */
  function StartReceive(c: Capsule, client: seq<u8>): (r: (Capsule, bool))
    ensures ValidCapsule(c) ==> ValidCapsule(r.0)
  {
    match c.state
    case Idle =>
      var c1 := c.(state := Receiving, client := Some(client), index := 0);
      (if c.spare.Some? then c1.(spare := None, asked := Some(1)) else c1, true)
    case Receiving => (c, false)
  }

  /** The copy into the client's buffer, as much as still fits. */
  function Collect(client: seq<u8>, index: nat, bytes: seq<u8>): (r: (seq<u8>, nat))
    requires index <= |client|
    ensures |r.0| == |client| && index <= r.1 <= |client|
  {
    var copied := Min(|bytes|, |client| - index);
    (Splice(client, index, bytes[..copied]), index + copied)
  }

  /** `received_buffer` on a driver buffer of length `size`. */
  function Received(c: Capsule, size: nat, f: Fragment): (r: (Capsule, Option<Delivery>))
    requires ValidCapsule(c)
    ensures ValidCapsule(r.0)
  {
    match c.state
    case Idle => (c, None)
    case Receiving =>
      var c1 :=
        if c.client.None? then c
        else
          var (client, index) := Collect(c.client.value, c.index, f.bytes);
          c.(client := Some(client), index := index);
      match f.status
      case Fine => (c1.(asked := Some(Min(size / 2, 50)), alarms := c1.alarms + 1), None)
      case Cancelled =>
        var c2 := c1.(spare := Some(size), asked := None, state := Idle);
        if c2.client.Some? then (c2.(client := None), Some(Delivery(c2.client.value, c2.index))) else (c2, None)
      case OtherError => (c1.(asked := None), None)
  }

  // ---- the capsule itself ----------------------------------------------------

  /** The driver: it owns a buffer from `receive_buffer` until it calls back. */
  class Driver {
    var buffer: array?<u8>
    var length: nat

    constructor ()
      ensures buffer == null
    {
      buffer := null;
      length := 0;
    }

    method ReceiveBuffer(buffer: array<u8>, length: nat)
      requires this.buffer == null
      modifies this
      ensures this.buffer == buffer && this.length == length
    {
      this.buffer := buffer;
      this.length := length;
    }
  }

  class UartReceiveMultipleTimeout {
    const uart: Driver
    var alarms: nat
    var rxBuffer: array?<u8>
    var rxClientBuffer: array?<u8>
    var rxClientIndex: nat
    var state: State

    ghost predicate Valid()
      reads this, uart, rxClientBuffer
    {
      && (rxBuffer != null ==> uart.buffer == null)
      && (rxClientBuffer != null ==> rxClientIndex <= rxClientBuffer.Length)
      && (rxClientBuffer != null ==> rxClientBuffer != rxBuffer && rxClientBuffer != uart.buffer)
    }

    ghost function View(): (c: Capsule)
      requires Valid()
      reads this, uart, rxClientBuffer
      ensures ValidCapsule(c)
    {
      Capsule(
        state,
        if rxBuffer == null then None else Some(rxBuffer.Length),
        if uart.buffer == null then None else Some(uart.length),
        if rxClientBuffer == null then None else Some(rxClientBuffer[..]),
        rxClientIndex, alarms)
    }

    constructor (uart: Driver, rxBuffer: array<u8>)
      requires uart.buffer == null
      ensures Valid() && View() == Capsule(Idle, Some(rxBuffer.Length), None, None, 0, 0)
      ensures this.uart == uart && this.rxBuffer == rxBuffer
    {
      this.uart := uart;
      alarms := 0;
      this.rxBuffer := rxBuffer;
      rxClientBuffer := null;
      rxClientIndex := 0;
      state := Idle;
    }

    method ReceiveAutomatic(buffer: array<u8>) returns (ok: bool)
      requires Valid() && buffer != rxBuffer && buffer != uart.buffer
      modifies this, uart
      ensures Valid() && (View(), ok) == StartReceive(old(View()), buffer[..])
      ensures ok ==> rxClientBuffer == buffer
    {
      match state {
        case Idle =>
          state := Receiving;
          rxClientBuffer := buffer;
          rxClientIndex := 0;
          if rxBuffer != null {
            uart.ReceiveBuffer(rxBuffer, 1);
            rxBuffer := null;
          }
          ok := true;
        case Receiving =>
          ok := false;
      }
    }

    /** The driver hands its buffer back with `rxLen` bytes in it. What the client is called with, if it is
        called, is returned: the call is the last thing this callback does. */
    method ReceivedBuffer(buffer: array<u8>, rxLen: nat, status: Status)
      returns (delivered: array?<u8>, length: nat)
      requires Valid() && rxLen <= buffer.Length
      requires rxBuffer == null && uart.buffer == null && buffer != rxClientBuffer
      modifies this, uart, rxClientBuffer
      ensures Valid()
      ensures var (c, d) := Received(old(View()), buffer.Length, Fragment(old(buffer[..rxLen]), status));
        && View() == c
        && (delivered != null <==> d.Some?)
        && (d.Some? ==> delivered == old(rxClientBuffer) && Delivery(delivered[..], length) == d.value)
    {
      delivered, length := null, 0;
      match state {
        case Idle =>
        case Receiving =>
          if rxClientBuffer != null {
            var rxOffset := rxClientIndex;
            var available := rxClientBuffer.Length - rxOffset;
            var copyLength := Min(rxLen, available);
            assert buffer[..rxLen][..copyLength] == buffer[..copyLength];
            CopyInto(rxClientBuffer, rxOffset, buffer, copyLength);
            rxClientIndex := rxOffset + copyLength;
          }
          match status {
            case Fine =>
              alarms := alarms + 1;
              uart.ReceiveBuffer(buffer, Min(buffer.Length / 2, 50));
            case Cancelled =>
              rxBuffer := buffer;
              state := Idle;
              if rxClientBuffer != null {
                delivered, length := rxClientBuffer, rxClientIndex;
                rxClientBuffer := null;
              }
            case OtherError =>
          }
      }
    }

    static method CopyInto(target: array<u8>, offset: nat, source: array<u8>, count: nat)
      requires target != source && offset + count <= target.Length && count <= source.Length
      modifies target
      ensures target[..] == Splice(old(target[..]), offset, source[..count])
    {
      for i := 0 to count
        invariant forall k :: 0 <= k < target.Length ==>
          target[k] == if offset <= k < offset + i then source[k - offset] else old(target[k])
      {
        target[offset + i] := source[i];
      }
    }
  }

  // ---- whole receives ---------------------------------------------------------

  /** After the callbacks for `frags`, and what they delivered. */
  function Run(c: Capsule, size: nat, frags: seq<Fragment>): (r: (Capsule, seq<Option<Delivery>>))
    requires ValidCapsule(c)
    ensures ValidCapsule(r.0) && |r.1| == |frags|
    decreases |frags|
  {
    if frags == [] then (c, [])
    else
      var init := Run(c, size, frags[..|frags| - 1]);
      var last := Received(init.0, size, frags[|frags| - 1]);
      (last.0, init.1 + [last.1])
  }

  function Contents(frags: seq<Fragment>): seq<u8> {
    if frags == [] then [] else Contents(frags[..|frags| - 1]) + frags[|frags| - 1].bytes
  }

  lemma CollectMore(buffer: seq<u8>, data: seq<u8>, more: seq<u8>)
    ensures Collect(Overwritten(buffer, data), Min(|buffer|, |data|), more)
      == (Overwritten(buffer, data + more), Min(|buffer|, |data + more|))
  {
    var (a, b) := (Collect(Overwritten(buffer, data), Min(|buffer|, |data|), more).0, Overwritten(buffer, data + more));
    forall k | 0 <= k < |buffer| ensures a[k] == b[k] {
      OverwrittenAt(buffer, data, k);
      OverwrittenAt(buffer, data + more, k);
    }
    hide Overwritten, Collect;
    assert a == b;
  }

  /** While fragments arrive in order, nothing is delivered and the client's buffer holds all of them, cut at its
      length. Each sets the alarm, and after each at most 50 bytes, or half of the capsule's buffer, are asked for. */
  lemma {:induction false} Collecting(c: Capsule, size: nat, buffer: seq<u8>, frags: seq<Fragment>)
    requires ValidCapsule(c) && c.state == Receiving && c.client == Some(buffer) && c.index == 0
    requires c.asked.Some? && c.spare.None?
    requires forall f :: f in frags ==> f.status == Fine
    ensures var (c1, ds) := Run(c, size, frags);
      && c1.state == Receiving && c1.spare.None? && c1.asked.Some?
      && c1.client == Some(Overwritten(buffer, Contents(frags)))
      && c1.index == Min(|buffer|, |Contents(frags)|)
      && (frags != [] ==> c1.asked == Some(if size >= 100 then 50 else size / 2))
      && c1.alarms == c.alarms + |frags|
      && ds == seq(|frags|, _ => None)
    decreases |frags|
  {
    if frags != [] {
      var init := frags[..|frags| - 1];
      Collecting(c, size, buffer, init);
      CollectMore(buffer, Contents(init), frags[|frags| - 1].bytes);
    } else {
      assert Overwritten(buffer, []) == buffer;
    }
  }

  /** The abort delivers everything, and the capsule is idle again. */
  lemma Delivers(c: Capsule, size: nat, buffer: seq<u8>, frags: seq<Fragment>, last: Fragment)
    requires ValidCapsule(c) && c.state == Receiving && c.client == Some(buffer) && c.index == 0
    requires c.asked.Some? && c.spare.None?
    requires (forall f :: f in frags ==> f.status == Fine) && last.status == Cancelled
    ensures var (c1, ds) := Run(c, size, frags + [last]);
      var all := Contents(frags) + last.bytes;
      && c1 == Capsule(Idle, Some(size), None, None, Min(|buffer|, |all|), c.alarms + |frags|)
      && ds == seq(|frags|, _ => None) + [Some(Delivery(Overwritten(buffer, all), Min(|buffer|, |all|)))]
  {
    Collecting(c, size, buffer, frags);
    CollectMore(buffer, Contents(frags), last.bytes);
    assert (frags + [last])[..|frags|] == frags;
  }

  /** One automatic receive: for every fragment sequence that ends in the abort, the client is called once,
      at the end, with the concatenation of all fragments cut at its buffer's length. Then the capsule is
      idle with the driver's buffer back, so that a receive started from the client's callback begins again
      at index 0. */
  lemma DeliversOnce(c: Capsule, size: nat, buffer: seq<u8>, frags: seq<Fragment>, last: Fragment, next: seq<u8>)
    requires ValidCapsule(c) && c.state == Idle && c.spare == Some(size)
    requires forall f :: f in frags ==> f.status == Fine
    requires last.status == Cancelled
    ensures var (c1, started) := StartReceive(c, buffer);
      var (c2, ds) := Run(c1, size, frags + [last]);
      var all := Contents(frags) + last.bytes;
      && started && c1.asked == Some(1) && c2.alarms == c.alarms + |frags|
      && ds == seq(|frags|, _ => None) + [Some(Delivery(Overwritten(buffer, all), Min(|buffer|, |all|)))]
      && c2.state == Idle && c2.spare == Some(size) && c2.asked.None? && c2.client.None?
      && StartReceive(c2, next).1
      && StartReceive(c2, next).0.index == 0 && StartReceive(c2, next).0.client == Some(next)
  {
    hide Run, Contents, Overwritten;
    Delivers(StartReceive(c, buffer).0, size, buffer, frags, last);
  }

  /** A receive that fails in another way than by the abort ends the capsule's work: the driver keeps its buffer,
      nothing is asked for and nothing delivered any more, and no receive can be started. */
  lemma StuckAfterFailure(c: Capsule, size: nat, f: Fragment, next: seq<u8>)
    requires ValidCapsule(c) && c.state == Receiving && c.asked.Some? && c.spare.None? && f.status == OtherError
    ensures var (c1, delivery) := Received(c, size, f);
      && delivery.None? && c1.asked.None? && c1.spare.None? && c1.alarms == c.alarms
      && StartReceive(c1, next) == (c1, false)
  {
  }
}
