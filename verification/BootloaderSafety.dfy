/** What holds in every run from start-up, and when the bootloader's own code stays as it is. */
module BootloaderSafety {
  import opened Arithmetic
  import opened Bytes
  import opened Framing
  import opened BootloaderMachine
  import opened BootloaderRuns
  import opened BootloaderCommands
  import opened Host
  import C = Commands
  import D = CommandDecoding
  import S = Stack
  import U = UartReassembly

  // ---- ownership in every reachable state --------------------------------------------

  /** What can happen next: the outstanding operation completes, or an armed receive ends with so many bytes. */
  datatype Event = Completion | Reception(buffer: seq<u8>, length: nat)

  /** Receives bring the buffer they were given; a command in them is serviceable. */
  predicate Enabled(cfg: Config, z: Sizes, w: World, e: Event)
    requires Inv(cfg, z, w)
  {
    match e
    case Completion => !Armed(w)
    case Reception(buffer, length) =>
      && Armed(w) && |buffer| == z.buffer && length <= |buffer|
      && var a := FirstAction(D.START, buffer[..length]);
      !a.Panics? && (a.Perform? ==> Serviceable(cfg, z, |w.mem|, a.command))
  }

  function Happens(cfg: Config, z: Sizes, w: World, e: Event): (r: World)
    requires Inv(cfg, z, w) && Enabled(cfg, z, w, e)
    ensures Inv(cfg, z, r)
  {
    match e
    case Completion =>
      AdvanceKeeps(cfg, z, w);
      Advance(cfg, z, w)
    case Reception(buffer, length) =>
      ReceptionKeeps(cfg, z, w, buffer, length);
      Deliver(cfg, z, w, buffer, FirstAction(D.START, buffer[..length]))
  }

  lemma ReceptionKeeps(cfg: Config, z: Sizes, w: World, buffer: seq<u8>, length: nat)
    requires Inv(cfg, z, w) && Enabled(cfg, z, w, Reception(buffer, length))
    ensures var a := FirstAction(D.START, buffer[..length]);
      && Roomy(w.m, buffer, a) && (a.Perform? ==> C.WellFormed(a.command))
      && Inv(cfg, z, Deliver(cfg, z, w, buffer, a))
  {
    hide FirstAction;
    var a := FirstAction(D.START, buffer[..length]);
    PerformsWellFormed(D.START, buffer[..length]);
    if a.Perform? {
      var _ := DeliverKeeps(cfg, z, w, buffer, a.command);
    }
  }

  /** Each event is enabled where it happens. */
  predicate IsRun(cfg: Config, z: Sizes, w: World, events: seq<Event>)
    requires Inv(cfg, z, w)
    decreases |events|
  {
    events != [] ==> Enabled(cfg, z, w, events[0]) && IsRun(cfg, z, Happens(cfg, z, w, events[0]), events[1..])
  }

  function RunOf(cfg: Config, z: Sizes, w: World, events: seq<Event>): World
    requires Inv(cfg, z, w) && IsRun(cfg, z, w, events)
    decreases |events|
  {
    if events == [] then w else RunOf(cfg, z, Happens(cfg, z, w, events[0]), events[1..])
  }

  lemma {:induction false} RunKeeps(cfg: Config, z: Sizes, w: World, events: seq<Event>)
    requires Inv(cfg, z, w) && IsRun(cfg, z, w, events)
    ensures Inv(cfg, z, RunOf(cfg, z, w, events))
    decreases |events|
  {
    hide Happens;
    if events != [] {
      RunKeeps(cfg, z, Happens(cfg, z, w, events[0]), events[1..]);
    }
  }

  /** The bootloader as its constructor leaves it, after `start` has armed the receive. */
  function Started(cfg: Config, z: Sizes, buffer: seq<u8>, page: seq<u8>, mem: seq<u8>): (w: World)
    requires ValidSizes(z, |mem|) && |buffer| == z.buffer && |page| == z.page
    ensures Inv(cfg, z, w) && Armed(w)
  {
    World(ListenAgain(Machine(Idle, Some(buffer), Some(page), Silent, NoOp, 0)), mem, [])
  }

  /** Each buffer is with exactly one owner: its cell, or the UART or the flash. */
  predicate Owned(m: Machine) {
    && (m.buffer.Some? <==> m.line.Silent?)
    && (m.page.Some? <==> m.op.NoOp? || m.op.Erasing?)
  }

  /** In every state reached from start-up each buffer has exactly one owner, exactly one operation is outstanding,
      the receive is armed only when idle, and finitely many completions arm it again. */
  lemma AlwaysOwned(cfg: Config, z: Sizes, buffer: seq<u8>, page: seq<u8>, mem: seq<u8>, events: seq<Event>)
    requires ValidSizes(z, |mem|) && |buffer| == z.buffer && |page| == z.page
    requires IsRun(cfg, z, Started(cfg, z, buffer, page, mem), events)
    ensures var w := RunOf(cfg, z, Started(cfg, z, buffer, page, mem), events);
      && Inv(cfg, z, w) && Owned(w.m)
      && (w.m.line.Silent? <==> !w.m.op.NoOp?)
      && (Armed(w) ==> w.m.state.Idle?)
      && Armed(Settle(cfg, z, w))
  {
    hide RunOf, Settle;
    RunKeeps(cfg, z, Started(cfg, z, buffer, page, mem), events);
  }

  // ---- the bootloader's own code ----------------------------------------------------------

  /** The bytes a command stores at the start of its footprint. */
  function Stored(cfg: Config, z: Sizes, c: C.Command): (data: seq<u8>)
    requires z.page > 0 && C.WellFormed(c)
    ensures |data| == Footprint(cfg, z, c).1
  {
    match c
    case WritePage(address, data) => if Writable(cfg, z, address, data) then data else []
    case ErasePage(_) => seq(z.page, _ => 0xFF)
    case SetAttr(_, key, value) => AttributeSlot(key, value)
    case SetStartAddress(address) => LeU32(address)
    case _ => []
  }

  lemma NextMemIsSplice(cfg: Config, z: Sizes, mem: seq<u8>, c: C.Command)
    requires ValidSizes(z, |mem|) && C.WellFormed(c) && Serviceable(cfg, z, |mem|, c)
    ensures Footprint(cfg, z, c).0 + |Stored(cfg, z, c)| <= |mem|
    ensures NextMem(cfg, z, mem, c) == Splice(mem, Footprint(cfg, z, c).0, Stored(cfg, z, c))
  {
    match c
    case WritePage(address, _) => InItsPage(z.page, |mem|, address);
    case ErasePage(address) => InItsPage(z.page, |mem|, address);
    case _ =>
  }

  /** Of `data` at `at`, what falls among the `n` bytes at `from` is what they hold already. */
  predicate Repeats(mem: seq<u8>, at: nat, data: seq<u8>, from: nat, n: nat)
    requires at + |data| <= |mem|
  {
    forall k :: 0 <= k < |data| && from <= at + k < from + n ==> data[k] == mem[at + k]
  }

  /** A command leaves a region as it is if and only if every byte it stores there is the one already there: in
      particular if its footprint lies elsewhere. */
  lemma RegionUnchangedIff(cfg: Config, z: Sizes, mem: seq<u8>, c: C.Command, from: nat, n: nat)
    requires ValidSizes(z, |mem|) && C.WellFormed(c) && Serviceable(cfg, z, |mem|, c) && from + n <= |mem|
    ensures var at, data := Footprint(cfg, z, c).0, Stored(cfg, z, c);
      && at + |data| <= |mem|
      && (NextMem(cfg, z, mem, c)[from..from + n] == mem[from..from + n] <==> Repeats(mem, at, data, from, n))
  {
    NextMemIsSplice(cfg, z, mem, c);
    hide NextMem, Footprint, Stored, Splice, Repeats, Serviceable;
    var at, data := Footprint(cfg, z, c).0, Stored(cfg, z, c);
    SpliceKeepsIff(mem, at, data, from, n);
  }

  lemma SpliceKeepsIff(mem: seq<u8>, at: nat, data: seq<u8>, from: nat, n: nat)
    requires at + |data| <= |mem| && from + n <= |mem|
    ensures Splice(mem, at, data)[from..from + n] == mem[from..from + n]
      <==> Repeats(mem, at, data, from, n)
  {
    var next := Splice(mem, at, data);
    if next[from..from + n] == mem[from..from + n] {
      forall k | 0 <= k < |data| && from <= at + k < from + n ensures data[k] == mem[at + k] {
        assert next[from..from + n][at + k - from] == next[at + k] == data[k];
        assert mem[from..from + n][at + k - from] == mem[at + k];
      }
    } else {
      var i :| 0 <= i < n && next[from..from + n][i] != mem[from..from + n][i];
      assert next[from + i] != mem[from + i];
      assert data[from + i - at] != mem[at + (from + i - at)];
    }
  }

  /** The bootloader's code, as its protection delimits it. */
  predicate CodeSpared(cfg: Config, z: Sizes, c: C.Command)
    requires z.page > 0 && cfg.bootloaderAddress <= cfg.bootloaderEnd
  {
    Spares(cfg, z, c, cfg.bootloaderAddress, cfg.bootloaderEnd - cfg.bootloaderAddress)
  }

  /** An accepted page write misses the code if and only if its address is neither before the code in the page where
      the code begins nor behind it in the page that holds its end. */
  lemma WriteSparesCodeIff(cfg: Config, z: Sizes, c: C.Command)
    requires z.page > 0 && c.WritePage? && Writable(cfg, z, c.address, c.data)
    requires cfg.bootloaderAddress <= cfg.bootloaderEnd
    ensures var start := PageStart(z.page, c.address / z.page);
      CodeSpared(cfg, z, c) <==>
        && !(c.address < cfg.bootloaderAddress < start + z.page)
        && !(cfg.bootloaderEnd <= c.address && start < cfg.bootloaderEnd)
  {
    var start := PageStart(z.page, c.address / z.page);
    assert c.address == start + c.address % z.page;
    assert Footprint(cfg, z, c) == (start, z.page);
    hide Footprint, PageStart;
    SparesAt(cfg, z, c, start);
  }

  lemma SparesAt(cfg: Config, z: Sizes, c: C.Command, start: nat)
    requires z.page > 0 && c.WritePage? && Footprint(cfg, z, c) == (start, z.page)
    requires cfg.bootloaderAddress <= cfg.bootloaderEnd && !Protected(cfg, c.address)
    requires start <= c.address < start + z.page
    ensures CodeSpared(cfg, z, c) <==>
      && !(c.address < cfg.bootloaderAddress < start + z.page)
      && !(cfg.bootloaderEnd <= c.address && start < cfg.bootloaderEnd)
  {
    hide Footprint;
  }

  /** With addresses on a page only the code's beginning is at risk, and not if that is on a page as well. */
  lemma AlignedWriteSparesCode(cfg: Config, z: Sizes, c: C.Command)
    requires z.page > 0 && c.WritePage? && c.address % z.page == 0
    requires cfg.bootloaderAddress <= cfg.bootloaderEnd
    ensures CodeSpared(cfg, z, c) <==>
      !(Writable(cfg, z, c.address, c.data) && c.address < cfg.bootloaderAddress < c.address + z.page)
    ensures cfg.bootloaderAddress % z.page == 0 ==> CodeSpared(cfg, z, c)
  {
    var q := c.address / z.page;
    assert c.address == PageStart(z.page, q);
    if Writable(cfg, z, c.address, c.data) {
      WriteSparesCodeIff(cfg, z, c);
      hide CodeSpared;
      if c.address < cfg.bootloaderAddress && cfg.bootloaderAddress % z.page == 0 {
        var first := cfg.bootloaderAddress / z.page;
        assert cfg.bootloaderAddress == z.page * first;
        if first <= q {
          TimesMonotone(z.page, first, q);
          assert false;
        }
        TimesMonotone(z.page, q + 1, first);
        TimesNext(z.page, q);
      }
    }
  }

  /** Whatever jobs the stack serves from start-up on, the code is what it was if each of them spares it. */
  lemma CodeKept(cfg: Config, z: Sizes, buffer: seq<u8>, page: seq<u8>, largePage: seq<u8>, size: nat,
      mem: seq<u8>, jobs: seq<S.Job>)
    requires ValidSizes(z, |mem|) && z.page == 512 && |mem| % 4096 == 0 && S.ValidJobs(cfg, z, |mem|, jobs)
    requires |buffer| == z.buffer && |page| == 512 && |largePage| == 4096
    requires cfg.bootloaderAddress <= cfg.bootloaderEnd <= |mem|
    requires forall i :: 0 <= i < |jobs| && S.Asked(z, jobs[i]).Perform? ==>
      CodeSpared(cfg, z, S.Asked(z, jobs[i]).command)
    ensures var s := S.Boot(buffer, page, largePage, size, mem);
      && S.StackInv(cfg, z, size, s) && Armed(S.Flat(s))
      && |S.RunJobs(cfg, z, size, s, jobs).mem| == |mem|
      && S.RunJobs(cfg, z, size, s, jobs).mem[cfg.bootloaderAddress..cfg.bootloaderEnd]
         == mem[cfg.bootloaderAddress..cfg.bootloaderEnd]
  {
    hide S.RunJobs, S.Boot, S.StackInv, S.ValidJob, S.Replies, S.MemAfter, S.Asked, Spares;
    S.BootRefines(cfg, z, buffer, page, largePage, size, mem, jobs);
    RegionKept(cfg, z, mem, jobs, cfg.bootloaderAddress, cfg.bootloaderEnd - cfg.bootloaderAddress);
  }

  /** A transfer that carries a command and nothing else. */
  function Carrying(c: C.Command): S.Job
    requires C.WellFormed(c)
  {
    S.Job([], U.Fragment(C.Wire(c), U.Cancelled))
  }

  lemma CarryingAsks(cfg: Config, z: Sizes, size: nat, c: C.Command)
    requires z.page > 0 && C.WellFormed(c) && C.Accepted(c) && !c.Reset? && Serviceable(cfg, z, size, c)
    requires |C.Wire(c)| <= z.buffer
    ensures Asks(z, Carrying(c), c) && S.ValidJobs(cfg, z, size, [Carrying(c)])
  {
    hide C.Wire, Serviceable;
    var j := Carrying(c);
    assert S.Text(j) == C.Wire(c) by { assert U.Contents(j.frags) == []; }
    assert Resets(0) + C.Wire(c) + [] == C.Wire(c);
    S.EncodedIsAsked(z, j, 0, c, []);
  }

  /** From start-up on, a transfer with one command leaves the code as it is if and only if every byte the command
      stores there is the one already there. */
  lemma CodeStaysIff(cfg: Config, z: Sizes, buffer: seq<u8>, page: seq<u8>, largePage: seq<u8>, size: nat,
      mem: seq<u8>, c: C.Command)
    requires ValidSizes(z, |mem|) && z.page == 512 && |mem| % 4096 == 0
    requires |buffer| == z.buffer && |page| == 512 && |largePage| == 4096
    requires cfg.bootloaderAddress <= cfg.bootloaderEnd <= |mem|
    requires C.WellFormed(c) && C.Accepted(c) && !c.Reset? && Serviceable(cfg, z, |mem|, c) && |C.Wire(c)| <= z.buffer
    ensures S.ValidJobs(cfg, z, |mem|, [Carrying(c)])
    ensures var s := S.Boot(buffer, page, largePage, size, mem);
      && S.StackInv(cfg, z, size, s) && Armed(S.Flat(s))
      && var (next, from, end) :=
           (S.RunJobs(cfg, z, size, s, [Carrying(c)]).mem, cfg.bootloaderAddress, cfg.bootloaderEnd);
      var at, data := Footprint(cfg, z, c).0, Stored(cfg, z, c);
      && next == NextMem(cfg, z, mem, c) && at + |data| <= |mem|
      && (next[from..end] == mem[from..end] <==> Repeats(mem, at, data, from, end - from))
  {
    hide S.RunJobs, S.Boot, S.StackInv, S.ValidJob, S.Replies, S.Asked, Carrying, NextMem, Stored, Footprint,
      Serviceable, Repeats, C.Wire;
    CarryingAsks(cfg, z, |mem|, c);
    S.BootRefines(cfg, z, buffer, page, largePage, size, mem, [Carrying(c)]);
    OneJob(cfg, z, mem, c);
    RegionUnchangedIff(cfg, z, mem, c, cfg.bootloaderAddress, cfg.bootloaderEnd - cfg.bootloaderAddress);
  }

  lemma OneJob(cfg: Config, z: Sizes, mem: seq<u8>, c: C.Command)
    requires ValidSizes(z, |mem|) && C.WellFormed(c) && Serviceable(cfg, z, |mem|, c)
    requires S.ValidJobs(cfg, z, |mem|, [Carrying(c)]) && Asks(z, Carrying(c), c)
    ensures S.MemAfter(cfg, z, mem, [Carrying(c)]) == NextMem(cfg, z, mem, c)
  {
    hide S.ValidJob, S.Asked, Carrying, NextMem, Serviceable;
    var jobs, next := [Carrying(c)], NextMem(cfg, z, mem, c);
    assert jobs[1..] == [];
    assert S.MemAfter(cfg, z, next, []) == next;
  }

  /** The protection is not enough: through the whole stack, code that ends inside a page is overwritten by a write to
      an address behind its end, and an erase is not checked at all. */
  lemma CodeLost(buffer: seq<u8>, page: seq<u8>, largePage: seq<u8>, size: nat, mem: seq<u8>)
    requires |buffer| == 600 && |page| == 512 && |largePage| == 4096
    requires |mem| == 8192 && mem[512] == 0x11 && mem[0] == 0x11
    ensures var (cfg, z) := (Config(4096, 4608, 0, 600), Sizes(512, 600));
      var (write, erase) := (Carrying(C.WritePage(700, seq(512, _ => 0x22))), Carrying(C.ErasePage(0)));
      var s := S.Boot(buffer, page, largePage, size, mem);
      && S.StackInv(cfg, z, size, s) && Armed(S.Flat(s))
      && S.ValidJobs(cfg, z, 8192, [write]) && S.ValidJobs(cfg, z, 8192, [erase])
      && |S.RunJobs(cfg, z, size, s, [write]).mem| == |S.RunJobs(cfg, z, size, s, [erase]).mem| == 8192
      && S.RunJobs(cfg, z, size, s, [write]).mem[512] == 0x22
      && S.RunJobs(cfg, z, size, s, [erase]).mem[0] == 0xFF
  {
    var cfg, z := Config(4096, 4608, 0, 600), Sizes(512, 600);
    var write, erase := C.WritePage(700, seq(512, _ => 0x22)), C.ErasePage(0);
    assert ValidSizes(z, 8192) && C.WellFormed(write) && C.WellFormed(erase) && C.Accepted(write) && C.Accepted(erase);
    assert Serviceable(cfg, z, 8192, write) && Serviceable(cfg, z, 8192, erase);
    hide *;
    WireLengths(write, erase);
    BothChange(cfg, z, mem, write, erase);
    CodeStaysIff(cfg, z, buffer, page, largePage, size, mem, write);
    CodeStaysIff(cfg, z, buffer, page, largePage, size, mem, erase);
  }

  lemma BothChange(cfg: Config, z: Sizes, mem: seq<u8>, write: C.Command, erase: C.Command)
    requires cfg == Config(4096, 4608, 0, 600) && z == Sizes(512, 600) && |mem| == 8192
    requires write == C.WritePage(700, seq(512, _ => 0x22)) && erase == C.ErasePage(0)
    ensures NextMem(cfg, z, mem, write)[512] == 0x22 && NextMem(cfg, z, mem, erase)[0] == 0xFF
  {
  }

  lemma WireLengths(write: C.Command, erase: C.Command)
    requires write == C.WritePage(700, seq(512, _ => 0x22)) && erase == C.ErasePage(0)
    ensures |C.Wire(write)| == 518 && |C.Wire(erase)| == 6
  {
    hide Escape;
    EscapeIsIdentity(C.Payload(write));
    EscapeIsIdentity(C.Payload(erase));
  }
}
