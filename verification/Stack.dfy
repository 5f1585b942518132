/** The whole stack: the bootloader on 512-byte pages simulated on 4096-byte pages, fed by a UART that
    delivers in fragments, refines the command interpreter on a flat memory. */
module Stack {
  import opened Bytes
  import opened BootloaderMachine
  import opened BootloaderRuns
  import opened BootloaderCommands
  import A = FlashAdapter
  import U = UartReassembly
  import C = Commands
  import D = CommandDecoding

  datatype Stack = Stack(m: Machine, flash: A.Adapter, uart: U.Capsule, mem: seq<u8>, sent: seq<u8>)

  /** What is left when the adapter and the UART capsule are not looked at. */
  function Flat(s: Stack): World {
    World(s.m, s.mem, s.sent)
  }

  // ---- requests and callbacks -------------------------------------------------------

  /** The bootloader's flash request as the adapter receives it. */
  function Request(op: FlashOp): A.Request
    requires !op.NoOp?
  {
    match op
    case Reading(index, page) => A.ReadRequest(index, page)
    case Writing(index, page) => A.WriteRequest(index, page)
    case Erasing(index) => A.EraseRequest(index)
  }

  /** After a callback of the bootloader: a new flash request goes to the adapter, a new receive to the UART. */
  function Forward(m: Machine, flash: A.Adapter, uart: U.Capsule, mem: seq<u8>, sent: seq<u8>): Stack
    requires A.ValidAdapter(flash)
  {
    Stack(
      m,
      if m.op.NoOp? then flash else A.Begin(flash, Request(m.op)).0,
      if m.line.Listening? then U.StartReceive(uart, m.line.buffer).0 else uart,
      mem, sent)
  }

  /** The adapter is working on exactly what the bootloader asked for. */
  predicate Linked(s: Stack) {
    && |s.mem| % A.LARGE == 0
    && A.ValidAdapter(s.flash)
    && match s.m.op
       case NoOp => A.AtRest(s.flash)
       case Reading(index, page) =>
         && s.flash.state == A.Read(index) && s.flash.clientPageBuffer == Some(page)
         && InFirstPhase(s, index)
       case Writing(index, page) =>
         && s.flash.state == A.Write(index) && s.flash.clientPageBuffer == Some(page)
         && (InFirstPhase(s, index) || InSecondPhase(s, index, page))
       case Erasing(index) =>
         && s.flash.state == A.Erase(index) && s.flash.clientPageBuffer.None?
         && (InFirstPhase(s, index) || InSecondPhase(s, index, seq(A.SMALL, _ => 0xFF)))
  }

  predicate InFirstPhase(s: Stack, index: nat) {
    && s.flash.pageBuffer.None? && s.flash.op.Reading? && s.flash.op.index == index / 8
    && |s.flash.op.page| == A.LARGE && A.SMALL * (index + 1) <= |s.mem|
  }

  predicate InSecondPhase(s: Stack, index: nat, data: seq<u8>)
    requires |s.mem| % A.LARGE == 0
  {
    && |data| == A.SMALL && A.SMALL * (index + 1) <= |s.mem|
    && s.flash.pageBuffer.None?
    && s.flash.op == A.Writing(index / 8, LargeWith(s.mem, index, data))
  }

  /** The large page around small page `index`, with that page replaced. */
  function LargeWith(mem: seq<u8>, index: nat, data: seq<u8>): seq<u8>
    requires |mem| % A.LARGE == 0 && A.SMALL * (index + 1) <= |mem| && |data| == A.SMALL
  {
    A.SlotInLarge(mem, index);
    Splice(mem[A.LARGE * (index / 8)..A.LARGE * (index / 8) + A.LARGE], A.SMALL * (index % 8), data)
  }

  /** The UART capsule is listening into the command buffer, or idle with its own buffer back. */
  predicate Wired(s: Stack, size: nat) {
    match s.m.line
    case Listening(buffer) =>
      s.uart.state == U.Receiving && s.uart.client == Some(buffer) && s.uart.index == 0
      && s.uart.asked.Some? && s.uart.spare.None?
    case _ => s.uart.state == U.Idle && s.uart.spare == Some(size) && s.uart.client.None?
  }

  predicate StackInv(cfg: Config, z: Sizes, size: nat, s: Stack) {
    z.page == A.SMALL && Inv(cfg, z, Flat(s)) && Linked(s) && Wired(s, size)
  }

  predicate FirstOfTwo(s: Stack) {
    s.m.line.Silent? && (s.m.op.Writing? || s.m.op.Erasing?) && s.flash.op.Reading?
  }

  function Changed(op: FlashOp): seq<u8>
    requires op.Writing? || op.Erasing?
  {
    if op.Writing? then op.page else seq(A.SMALL, _ => 0xFF)
  }

  /** The large flash has something to complete, on pages that exist. */
  predicate Completable(s: Stack) {
    && A.ValidAdapter(s.flash) && s.flash.pageBuffer.None? && s.flash.op != A.NoOp
    && A.LARGE * (s.flash.op.index + 1) <= |s.mem| && |s.flash.op.page| == A.LARGE
    && A.CallbackSlotFits(s.flash, A.LARGE)
  }

  lemma LinkedCompletes(s: Stack)
    requires Linked(s) && !s.m.op.NoOp?
    ensures Completable(s) && A.SMALL * (s.m.op.index + 1) <= |s.mem|
  {
    A.SlotInLarge(s.mem, s.m.op.index);
  }

  /** A read of a small page completes with that page. */
  lemma ReadCompletes(s: Stack)
    requires Linked(s) && s.m.op.Reading? && Completable(s) && A.SMALL * (s.m.op.index + 1) <= |s.mem|
    ensures var (flash, mem, notice) := A.Complete(s.flash, s.mem, A.LARGE);
      A.AtRest(flash) && mem == s.mem && notice == A.ReadDone(A.SmallPage(s.mem, s.m.op.index))
  {
    var n := s.m.op.index;
    A.SlotInLarge(s.mem, n);
    SliceOfSlice(s.mem, A.LARGE * (n / 8), A.LARGE, A.SMALL * (n % 8), A.SMALL);
  }

  /** The read in the middle of a write or an erase changes nothing and tells the bootloader nothing. */
  lemma FirstCompletes(s: Stack)
    requires Linked(s) && FirstOfTwo(s) && Completable(s) && |Changed(s.m.op)| == A.SMALL
    ensures var (flash, mem, notice) := A.Complete(s.flash, s.mem, A.LARGE);
      && notice == A.Nothing && mem == s.mem && A.ValidAdapter(flash)
      && Linked(s.(flash := flash)) && flash.op.Writing?
  {
    A.SlotInLarge(s.mem, s.m.op.index);
  }

  /** Then the write completes: just the small page has changed. */
  lemma SecondCompletes(s: Stack)
    requires Linked(s) && (s.m.op.Writing? || s.m.op.Erasing?) && s.flash.op.Writing? && Completable(s)
    ensures A.SMALL * (s.m.op.index + 1) <= |s.mem| && |Changed(s.m.op)| == A.SMALL
    ensures var (flash, mem, notice) := A.Complete(s.flash, s.mem, A.LARGE);
      && A.AtRest(flash)
      && mem == Splice(s.mem, A.SMALL * s.m.op.index, Changed(s.m.op))
      && notice == if s.m.op.Writing? then A.WriteDone(s.m.op.page) else A.EraseDone
  {
    A.SlotSpliced(s.mem, s.m.op.index, Changed(s.m.op));
  }

  /** The callback that follows a completion finds what it needs. */
  lemma CallbackFits(cfg: Config, z: Sizes, size: nat, s: Stack)
    requires StackInv(cfg, z, size, s) && s.m.line.Silent? && Completable(s)
    ensures var (flash, mem, notice) := A.Complete(s.flash, s.mem, A.LARGE);
      && A.ValidAdapter(flash) && HasRoom(s.m, 2)
      && (notice.ReadDone? ==> HasRoom(s.m, NeededRoom(s.m.state)))
      && (notice.ReadDone? ==> SlotInPage(cfg, s.m.(op := NoOp), notice.page))
  {
    LinkedCompletes(s);
    if s.m.op.Reading? {
      ReadingFits(cfg, z, |s.mem|, s.m);
      ReadCompletes(s);
    } else if s.flash.op.Reading? {
      FirstCompletes(s);
    } else {
      SecondCompletes(s);
    }
  }

  /** The hardware completes one operation. */
  function Step(cfg: Config, z: Sizes, size: nat, s: Stack): Stack
    requires StackInv(cfg, z, size, s) && !Armed(Flat(s))
  {
    match s.m.line
    case Sending(out, length) =>
      Forward(Transmitted(s.m.(line := Silent), out), s.flash, s.uart, s.mem, s.sent + out[..length])
    case Silent =>
      LinkedCompletes(s);
      var (flash, mem, notice) := A.Complete(s.flash, s.mem, A.LARGE);
      var m := s.m.(op := NoOp);
      CallbackFits(cfg, z, size, s);
      match notice
      case Nothing => s.(flash := flash, mem := mem)
      case ReadDone(page) =>
        Forward(ReadComplete(cfg, m, page), flash, s.uart, mem, s.sent)
      case WriteDone(page) => Forward(WriteComplete(m, page), flash, s.uart, mem, s.sent)
      case EraseDone => Forward(EraseComplete(m), flash, s.uart, mem, s.sent)
  }

  // ---- the stack refines the bootloader on a flat flash ------------------------------------

  predicate UartIdle(uart: U.Capsule, size: nat) {
    uart.state == U.Idle && uart.spare == Some(size) && uart.client.None?
  }

  lemma SmallPageIsPage(mem: seq<u8>, index: nat)
    ensures IsPage(A.SMALL, |mem|, index) <==> A.SMALL * (index + 1) <= |mem|
    ensures PageStart(A.SMALL, index) == A.SMALL * index
    ensures IsPage(A.SMALL, |mem|, index) ==> Page(mem, A.SMALL, index) == A.SmallPage(mem, index)
  {
  }

  /** A page being asked for exists. */
  lemma OpInRange(cfg: Config, z: Sizes, w: World)
    requires Inv(cfg, z, w) && z.page == A.SMALL && !w.m.op.NoOp?
    ensures A.SMALL * (w.m.op.index + 1) <= |w.mem|
    ensures w.m.op.Writing? || w.m.op.Reading? ==> |w.m.op.page| == A.SMALL
  {
    SmallPageIsPage(w.mem, w.m.op.index);
    if w.m.op.Reading? {
      ReadingFits(cfg, z, |w.mem|, w.m);
    }
  }

  /** Whatever a callback starts is passed on to an adapter at rest and an idle UART. */
  lemma ForwardLinks(cfg: Config, z: Sizes, size: nat, w: World, flash: A.Adapter, uart: U.Capsule)
    requires Inv(cfg, z, w) && z.page == A.SMALL && |w.mem| % A.LARGE == 0
    requires A.AtRest(flash) && UartIdle(uart, size)
    ensures StackInv(cfg, z, size, Forward(w.m, flash, uart, w.mem, w.sent))
    ensures Flat(Forward(w.m, flash, uart, w.mem, w.sent)) == w
  {
    if !w.m.op.NoOp? {
      OpInRange(cfg, z, w);
    }
  }

  lemma SendSimulates(cfg: Config, z: Sizes, size: nat, s: Stack)
    requires StackInv(cfg, z, size, s) && s.m.line.Sending?
    ensures StackInv(cfg, z, size, Step(cfg, z, size, s))
    ensures Flat(Step(cfg, z, size, s)) == Advance(cfg, z, Flat(s))
  {
    AdvanceKeeps(cfg, z, Flat(s));
    hide Transmitted;
    ForwardLinks(cfg, z, size, Advance(cfg, z, Flat(s)), s.flash, s.uart);
  }

  lemma ReadSimulates(cfg: Config, z: Sizes, size: nat, s: Stack)
    requires StackInv(cfg, z, size, s) && s.m.line.Silent? && s.m.op.Reading?
    ensures StackInv(cfg, z, size, Step(cfg, z, size, s))
    ensures Flat(Step(cfg, z, size, s)) == Advance(cfg, z, Flat(s))
  {
    hide ReadComplete;
    AdvanceKeeps(cfg, z, Flat(s));
    LinkedCompletes(s);
    ReadCompletes(s);
    SmallPageIsPage(s.mem, s.m.op.index);
    ForwardLinks(cfg, z, size, Advance(cfg, z, Flat(s)), A.Complete(s.flash, s.mem, A.LARGE).0, s.uart);
  }

  lemma FirstStutters(cfg: Config, z: Sizes, size: nat, s: Stack)
    requires StackInv(cfg, z, size, s) && FirstOfTwo(s)
    ensures StackInv(cfg, z, size, Step(cfg, z, size, s)) && !FirstOfTwo(Step(cfg, z, size, s))
    ensures Flat(Step(cfg, z, size, s)) == Flat(s)
  {
    OpInRange(cfg, z, Flat(s));
    LinkedCompletes(s);
    FirstCompletes(s);
  }

  lemma SecondSimulates(cfg: Config, z: Sizes, size: nat, s: Stack)
    requires StackInv(cfg, z, size, s) && s.m.line.Silent? && !s.m.op.Reading? && !FirstOfTwo(s)
    ensures StackInv(cfg, z, size, Step(cfg, z, size, s))
    ensures Flat(Step(cfg, z, size, s)) == Advance(cfg, z, Flat(s))
  {
    hide WriteComplete, EraseComplete;
    AdvanceKeeps(cfg, z, Flat(s));
    LinkedCompletes(s);
    SecondCompletes(s);
    SmallPageIsPage(s.mem, s.m.op.index);
    ForwardLinks(cfg, z, size, Advance(cfg, z, Flat(s)), A.Complete(s.flash, s.mem, A.LARGE).0, s.uart);
  }

  /** Hardware completions still to come. */
  function Pending(s: Stack): nat {
    2 * Measure(Flat(s)) + (if FirstOfTwo(s) then 1 else 0)
  }

  /** A completion below is a completion of the flat machine, or the silent half of a write. */
  lemma StepSimulates(cfg: Config, z: Sizes, size: nat, s: Stack)
    requires StackInv(cfg, z, size, s) && !Armed(Flat(s))
    ensures StackInv(cfg, z, size, Step(cfg, z, size, s))
    ensures Pending(Step(cfg, z, size, s)) < Pending(s)
    ensures Flat(Step(cfg, z, size, s)) == if FirstOfTwo(s) then Flat(s) else Advance(cfg, z, Flat(s))
  {
    hide Step, Advance;
    if s.m.line.Sending? {
      SendSimulates(cfg, z, size, s);
      AdvanceKeeps(cfg, z, Flat(s));
    } else if s.m.op.Reading? {
      ReadSimulates(cfg, z, size, s);
      AdvanceKeeps(cfg, z, Flat(s));
    } else if FirstOfTwo(s) {
      FirstStutters(cfg, z, size, s);
    } else {
      SecondSimulates(cfg, z, size, s);
      AdvanceKeeps(cfg, z, Flat(s));
    }
  }

  /** Completions until the receive is armed again. */
  function StackSettle(cfg: Config, z: Sizes, size: nat, s: Stack): (r: Stack)
    requires StackInv(cfg, z, size, s)
    ensures StackInv(cfg, z, size, r) && Armed(Flat(r))
    decreases Pending(s)
  {
    if Armed(Flat(s)) then s
    else
      StepSimulates(cfg, z, size, s);
      StackSettle(cfg, z, size, Step(cfg, z, size, s))
  }

  /** Run to the end, the stack is where the flat machine is. */
  lemma {:induction false} SettleSimulates(cfg: Config, z: Sizes, size: nat, s: Stack)
    requires StackInv(cfg, z, size, s)
    ensures Flat(StackSettle(cfg, z, size, s)) == Settle(cfg, z, Flat(s))
    decreases Pending(s)
  {
    hide Step, Advance;
    if !Armed(Flat(s)) {
      StepSimulates(cfg, z, size, s);
      SettleSimulates(cfg, z, size, Step(cfg, z, size, s));
    }
  }

  // ---- transfers -----------------------------------------------------------------------------

  /** One transfer from the host, in fragments of which the last is cut off by the timeout. */
  datatype Job = Job(frags: seq<U.Fragment>, last: U.Fragment)

  function Text(j: Job): seq<u8> {
    U.Contents(j.frags) + j.last.bytes
  }

  /** As much of it as the command buffer holds. */
  function Heard(z: Sizes, j: Job): seq<u8> {
    Text(j)[..Min(|Text(j)|, z.buffer)]
  }

  /** What it asks for: a command, the refusal of an error, or nothing. */
  function Asked(z: Sizes, j: Job): Action {
    FirstAction(D.START, Heard(z, j))
  }

  predicate ValidJob(cfg: Config, z: Sizes, memSize: nat, j: Job)
    requires z.page > 0
  {
    && (forall f :: f in j.frags ==> f.status == U.Fine) && j.last.status == U.Cancelled
    && Manageable(cfg, z, memSize, Asked(z, j))
  }

  /** Any number of Resets, the encoding of an accepted command, and anything behind it, ask for the command. */
  lemma EncodedIsAsked(z: Sizes, j: Job, resets: nat, c: C.Command, rest: seq<u8>)
    requires C.Accepted(c) && C.WellFormed(c) && !c.Reset?
    requires Text(j) == Resets(resets) + C.Wire(c) + rest && |Text(j)| <= z.buffer
    ensures Asked(z, j) == Perform(c)
  {
    CommandArrives(resets, c, rest);
    assert Heard(z, j) == Text(j);
  }

  /** The command buffer as the bootloader finds it: the text of the job, and behind it what was there before. */
  function Arrived(before: seq<u8>, j: Job): (buffer: seq<u8>)
    ensures |buffer| == |before|
  {
    Overwritten(before, Text(j))
  }

  /** The UART capsule delivers the text of the job at the front of the command buffer. */
  lemma TextArrives(cfg: Config, z: Sizes, size: nat, s: Stack, j: Job)
    requires StackInv(cfg, z, size, s) && Armed(Flat(s)) && ValidJob(cfg, z, |s.mem|, j)
    ensures U.ValidCapsule(s.uart)
    ensures var buffer := Arrived(s.m.line.buffer, j);
      var (uart, deliveries) := U.Run(s.uart, size, j.frags + [j.last]);
      && |buffer| == z.buffer && buffer[..|Heard(z, j)|] == Heard(z, j)
      && UartIdle(uart, size)
      && deliveries == seq(|j.frags|, _ => None) + [Some(U.Delivery(buffer, |Heard(z, j)|))]
  {
    var before := s.m.line.buffer;
    hide FirstAction, Manageable, U.Run, U.Contents;
    U.Delivers(s.uart, size, before, j.frags, j.last);
  }

  /** What the last fragment makes the UART capsule deliver. */
  function Delivered(cfg: Config, z: Sizes, size: nat, s: Stack, j: Job): (d: U.Delivery)
    requires StackInv(cfg, z, size, s) && Armed(Flat(s)) && ValidJob(cfg, z, |s.mem|, j)
    ensures |d.buffer| == z.buffer && d.length <= z.buffer && d.buffer[..d.length] == Heard(z, j)
    ensures d.buffer == Arrived(s.m.line.buffer, j)
  {
    TextArrives(cfg, z, size, s, j);
    var deliveries := U.Run(s.uart, size, j.frags + [j.last]).1;
    deliveries[|deliveries| - 1].value
  }

  /** The fragments come in, and the bootloader is called with what the UART capsule delivers. */
  function Receive(cfg: Config, z: Sizes, size: nat, s: Stack, j: Job): Stack
    requires StackInv(cfg, z, size, s) && Armed(Flat(s)) && ValidJob(cfg, z, |s.mem|, j)
  {
    TextArrives(cfg, z, size, s, j);
    var d := Delivered(cfg, z, size, s, j);
    Forward(
      Handle(cfg, s.m.(line := Silent), d.buffer, FirstAction(D.START, d.buffer[..d.length])),
      s.flash, U.Run(s.uart, size, j.frags + [j.last]).0, s.mem, s.sent)
  }

  /** Seen from above, the bootloader was delivered what the job asks for. */
  lemma ReceiveIsDeliver(cfg: Config, z: Sizes, size: nat, s: Stack, j: Job)
    requires StackInv(cfg, z, size, s) && Armed(Flat(s)) && ValidJob(cfg, z, |s.mem|, j)
    ensures Roomy(s.m, Arrived(s.m.line.buffer, j), Asked(z, j))
    ensures StackInv(cfg, z, size, Receive(cfg, z, size, s, j))
    ensures Flat(Receive(cfg, z, size, s, j))
      == Deliver(cfg, z, Flat(s), Arrived(s.m.line.buffer, j), Asked(z, j))
  {
    hide HandleCommand, FirstAction, Answered, Settle, Arrived, Text;
    TextArrives(cfg, z, size, s, j);
    var _ := ReceptionServed(cfg, z, Flat(s), Arrived(s.m.line.buffer, j), Asked(z, j));
    ForwardLinks(cfg, z, size, Deliver(cfg, z, Flat(s), Arrived(s.m.line.buffer, j), Asked(z, j)),
      s.flash, U.Run(s.uart, size, j.frags + [j.last]).0);
  }

  /** One job: in any fragmentation, what it asks for is answered as the interpreter says. */
  lemma JobServed(cfg: Config, z: Sizes, size: nat, s: Stack, j: Job) returns (r: Stack)
    requires StackInv(cfg, z, size, s) && Armed(Flat(s)) && ValidJob(cfg, z, |s.mem|, j)
    ensures StackInv(cfg, z, size, Receive(cfg, z, size, s, j))
    ensures r == StackSettle(cfg, z, size, Receive(cfg, z, size, s, j))
    ensures StackInv(cfg, z, size, r) && Armed(Flat(r))
    ensures |s.m.line.buffer| == z.buffer
    ensures Answered(cfg, z, Flat(s), Asked(z, j), Arrived(s.m.line.buffer, j), Flat(r))
  {
    hide Receive, StackSettle, Settle, Answered, Arrived, FirstAction;
    ReceiveIsDeliver(cfg, z, size, s, j);
    var s0 := Receive(cfg, z, size, s, j);
    SettleSimulates(cfg, z, size, s0);
    var _ := ReceptionServed(cfg, z, Flat(s), Arrived(s.m.line.buffer, j), Asked(z, j));
    r := StackSettle(cfg, z, size, s0);
  }

  // ---- sessions ------------------------------------------------------------------------------------

  predicate ValidJobs(cfg: Config, z: Sizes, memSize: nat, jobs: seq<Job>)
    requires z.page > 0
  {
    forall i :: 0 <= i < |jobs| ==> ValidJob(cfg, z, memSize, jobs[i])
  }

  /** The stack after a sequence of jobs, each started when the receive is armed. */
  function RunJobs(cfg: Config, z: Sizes, size: nat, s: Stack, jobs: seq<Job>): (r: Stack)
    requires StackInv(cfg, z, size, s) && Armed(Flat(s)) && ValidJobs(cfg, z, |s.mem|, jobs)
    ensures StackInv(cfg, z, size, r) && Armed(Flat(r))
    decreases |jobs|
  {
    if jobs == [] then s
    else
      SizeKept(cfg, z, size, s, jobs[0]);
      hide *;
      RunJobs(cfg, z, size, StackSettle(cfg, z, size, Receive(cfg, z, size, s, jobs[0])), jobs[1..])
  }

  lemma SizeKept(cfg: Config, z: Sizes, size: nat, s: Stack, j: Job)
    requires StackInv(cfg, z, size, s) && Armed(Flat(s)) && ValidJob(cfg, z, |s.mem|, j)
    ensures StackInv(cfg, z, size, Receive(cfg, z, size, s, j))
    ensures |StackSettle(cfg, z, size, Receive(cfg, z, size, s, j)).mem| == |s.mem|
  {
    hide Receive, StackSettle;
    var _ := JobServed(cfg, z, size, s, j);
  }

  /** The interpreter's memory after the jobs. */
  function MemAfter(cfg: Config, z: Sizes, mem: seq<u8>, jobs: seq<Job>): (next: seq<u8>)
    requires ValidSizes(z, |mem|) && ValidJobs(cfg, z, |mem|, jobs)
    ensures |next| == |mem|
    decreases |jobs|
  {
    if jobs == [] then mem else MemAfter(cfg, z, MemOn(cfg, z, mem, Asked(z, jobs[0])), jobs[1..])
  }

  /** Its command buffer after them. */
  function BufferAfter(cfg: Config, z: Sizes, mem: seq<u8>, buffer: seq<u8>, jobs: seq<Job>): (next: seq<u8>)
    requires ValidSizes(z, |mem|) && ValidJobs(cfg, z, |mem|, jobs) && |buffer| == z.buffer
    ensures |next| == |buffer|
    decreases |jobs|
  {
    if jobs == [] then buffer
    else
      BufferAfter(cfg, z, MemOn(cfg, z, mem, Asked(z, jobs[0])),
        BufferOn(cfg, z, mem, Asked(z, jobs[0]), Arrived(buffer, jobs[0])), jobs[1..])
  }

  /** One reply to each job, from the memory and the command buffer it found. */
  function Replies(cfg: Config, z: Sizes, mem: seq<u8>, buffer: seq<u8>, jobs: seq<Job>): (replies: seq<seq<u8>>)
    requires ValidSizes(z, |mem|) && ValidJobs(cfg, z, |mem|, jobs) && |buffer| == z.buffer
    ensures |replies| == |jobs|
    decreases |jobs|
  {
    if jobs == [] then []
    else
      var (asked, arrived) := (Asked(z, jobs[0]), Arrived(buffer, jobs[0]));
      [ReplyOn(cfg, z, mem, asked, arrived)]
      + Replies(cfg, z, MemOn(cfg, z, mem, asked), BufferOn(cfg, z, mem, asked, arrived), jobs[1..])
  }

  /** The whole stack refines the command interpreter on a flat memory and one command buffer: for every sequence of
      jobs, flash and buffer end as the interpreter's, and what was sent is the interpreter's replies, in order. */
  lemma {:induction false} StackRefines(cfg: Config, z: Sizes, size: nat, s: Stack, jobs: seq<Job>)
    requires StackInv(cfg, z, size, s) && Armed(Flat(s)) && ValidJobs(cfg, z, |s.mem|, jobs)
    ensures |s.m.line.buffer| == z.buffer
    ensures var r := RunJobs(cfg, z, size, s, jobs);
      && r.mem == MemAfter(cfg, z, s.mem, jobs)
      && r.m.line == Listening(BufferAfter(cfg, z, s.mem, s.m.line.buffer, jobs))
      && r.sent == s.sent + Flatten(Replies(cfg, z, s.mem, s.m.line.buffer, jobs))
    decreases |jobs|
  {
    hide Receive, StackSettle, ReplyOn, MemOn, BufferOn, Flatten, Arrived, Asked;
    if jobs == [] {
      FlattenNone();
      assert s.sent + [] == s.sent;
    } else {
      var r := JobServed(cfg, z, size, s, jobs[0]);
      StackRefines(cfg, z, size, r, jobs[1..]);
      var reply := ReplyOn(cfg, z, s.mem, Asked(z, jobs[0]), Arrived(s.m.line.buffer, jobs[0]));
      var later := Replies(cfg, z, r.mem, r.m.line.buffer, jobs[1..]);
      FlattenFirst(reply, later);
      Reassociate(s.sent, reply, Flatten(later));
    }
  }

  // ---- from start-up ---------------------------------------------------------------------------

  /** The stack as the constructors leave it, after `start` has armed the receive. */
  function Boot(buffer: seq<u8>, page: seq<u8>, largePage: seq<u8>, size: nat, mem: seq<u8>): Stack
    requires |largePage| == A.LARGE
  {
    Forward(
      ListenAgain(Machine(Idle, Some(buffer), Some(page), Silent, NoOp, 0)),
      A.Adapter(A.Idle, Some(largePage), None, A.NoOp), U.Capsule(U.Idle, Some(size), None, None, 0, 0), mem, [])
  }

  /** Start-up establishes the invariant, whatever the buffers and the flash hold. */
  lemma BootReady(
      cfg: Config, z: Sizes, buffer: seq<u8>, page: seq<u8>, largePage: seq<u8>, size: nat, mem: seq<u8>)
    requires ValidSizes(z, |mem|) && z.page == A.SMALL && |mem| % A.LARGE == 0
    requires |buffer| == z.buffer && |page| == A.SMALL && |largePage| == A.LARGE
    ensures var s := Boot(buffer, page, largePage, size, mem);
      && StackInv(cfg, z, size, s) && Armed(Flat(s))
      && s.m.line == Listening(buffer) && s.mem == mem && s.sent == []
  {
  }

  /** So from start-up on: flash and output are the interpreter's, for every sequence of jobs. */
  lemma BootRefines(cfg: Config, z: Sizes, buffer: seq<u8>, page: seq<u8>, largePage: seq<u8>, size: nat,
      mem: seq<u8>, jobs: seq<Job>)
    requires ValidSizes(z, |mem|) && z.page == A.SMALL && |mem| % A.LARGE == 0
    requires |buffer| == z.buffer && |page| == A.SMALL && |largePage| == A.LARGE
    requires ValidJobs(cfg, z, |mem|, jobs)
    ensures var s := Boot(buffer, page, largePage, size, mem);
      && StackInv(cfg, z, size, s) && Armed(Flat(s))
      && var r := RunJobs(cfg, z, size, s, jobs);
      && r.mem == MemAfter(cfg, z, mem, jobs)
      && r.sent == Flatten(Replies(cfg, z, mem, buffer, jobs))
  {
    hide RunJobs, MemAfter, Replies, ValidJobs, Flatten;
    BootReady(cfg, z, buffer, page, largePage, size, mem);
    var s := Boot(buffer, page, largePage, size, mem);
    StackRefines(cfg, z, size, s, jobs);
    assert [] + Flatten(Replies(cfg, z, mem, buffer, jobs)) == Flatten(Replies(cfg, z, mem, buffer, jobs));
  }
}
