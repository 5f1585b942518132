/** `BootloaderEnterer`: whether to stay in the bootloader or jump to the kernel. */
module BootloaderEnterer {
  import opened Bytes
  import opened BootloaderMachine
  import opened BootloaderRuns
  import opened BootloaderCommands
  import C = Commands
  import H = Host
  import S = Stack

  const KERNEL_START: u32 := 0x0000_8000
  const KERNEL_END: u32 := 0x0020_0000
  const ERASED_WORD: u32 := 0xFFFF_FFFF

  class Jumper {
    var target: Option<u32>

    method Jump(address: u32)
      modifies this
      ensures target == Some(address)
    {
      target := Some(address);
    }
  }

  class ActiveNotifier {
    var lit: bool

    method Active()
      modifies this
      ensures lit
    {
      lit := true;
    }
  }

  /** A volatile read of a word: `bus` is what the hardware answers beyond the flash. */
  function WordAt(mem: seq<u8>, address: nat, bus: u32): u32 {
    if address + 4 <= |mem| then ReadU32(mem[address..address + 4]) else bus
  }

  /** Where a reset that does not stay in the bootloader ends up, if not in the bootloader after all. */
  predicate Boots(mem: seq<u8>, bus: u32, start: u32) {
    KERNEL_START <= start < KERNEL_END && WordAt(mem, start, bus) != ERASED_WORD
  }

  class BootloaderEnterer {
    const jumper: Jumper
    const notifier: ActiveNotifier
    const flagsAddress: nat

    constructor (jumper: Jumper, notifier: ActiveNotifier, flagsAddress: nat)
      ensures this.jumper == jumper && this.notifier == notifier && this.flagsAddress == flagsAddress
    {
      this.jumper, this.notifier, this.flagsAddress := jumper, notifier, flagsAddress;
    }

    /** Either the kernel is jumped to or the active notifier is called, never both. */
    method EnterKernel(mem: seq<u8>, bus: u32)
      requires flagsAddress + 36 <= |mem|
      modifies jumper, notifier
      ensures var start := ReadU32(mem[flagsAddress + 32..flagsAddress + 36]);
        && jumper.target == (if Boots(mem, bus, start) then Some(start) else old(jumper.target))
        && notifier.lit == (old(notifier.lit) || !Boots(mem, bus, start))
    {
      var start := WordAt(mem, flagsAddress + 32, bus);
      if start < KERNEL_START || start >= KERNEL_END {
        notifier.Active();
        return;
      }
      if WordAt(mem, start, bus) == ERASED_WORD {
        notifier.Active();
        return;
      }
      jumper.Jump(start);
    }

    method Check(stayInBootloader: bool, mem: seq<u8>, bus: u32)
      requires flagsAddress + 36 <= |mem|
      modifies jumper, notifier
      ensures var start := ReadU32(mem[flagsAddress + 32..flagsAddress + 36]);
        var boots := !stayInBootloader && Boots(mem, bus, start);
        && jumper.target == (if boots then Some(start) else old(jumper.target))
        && notifier.lit == (old(notifier.lit) || !boots)
    {
      if !stayInBootloader {
        EnterKernel(mem, bus);
      } else {
        notifier.Active();
      }
    }
  }

  /** A restart on a flash: where it jumps to, if anywhere. */
  method Restart(flagsAddress: nat, mem: seq<u8>, bus: u32) returns (target: Option<u32>)
    requires flagsAddress + 36 <= |mem|
    ensures var start := ReadU32(mem[flagsAddress + 32..flagsAddress + 36]);
      target == if Boots(mem, bus, start) then Some(start) else None
  {
    var jumper, notifier := new Jumper, new ActiveNotifier;
    jumper.target := None;
    var enterer := new BootloaderEnterer(jumper, notifier, flagsAddress);
    enterer.Check(false, mem, bus);
    target := jumper.target;
  }

  lemma AddressStored(cfg: Config, z: Sizes, mem: seq<u8>, c: C.Command)
    requires ValidSizes(z, |mem|) && c.SetStartAddress? && Serviceable(cfg, z, |mem|, c)
    ensures cfg.flagsAddress + 36 <= |mem|
    ensures var at := cfg.flagsAddress + 32; NextMem(cfg, z, mem, c)[at..at + 4] == LeU32(c.address)
  {
  }

  /** After SetStartAddress(a) the next jump goes to exactly `a` when `a` lies in [0x8000, 0x200000) and the word
      there is not erased, and otherwise nowhere. */
  method BootAfterSetStart(cfg: Config, z: Sizes, mem: seq<u8>, a: u32, bus: u32) returns (target: Option<u32>)
    requires ValidSizes(z, |mem|) && Serviceable(cfg, z, |mem|, C.SetStartAddress(a))
    ensures var next := NextMem(cfg, z, mem, C.SetStartAddress(a));
      target == if 0x8000 <= a < 0x20_0000 && WordAt(next, a, bus) != 0xFFFF_FFFF then Some(a) else None
  {
    AddressStored(cfg, z, mem, C.SetStartAddress(a));
    LeU32RoundTrip(a, [0, 0, 0, 0]);
    hide NextMem, LeU32, ReadU32;
    target := Restart(cfg.flagsAddress, NextMem(cfg, z, mem, C.SetStartAddress(a)), bus);
  }

  lemma StoredAfter(cfg: Config, z: Sizes, mem: seq<u8>, first: S.Job, a: u32, others: seq<S.Job>)
    requires ValidSizes(z, |mem|) && S.ValidJobs(cfg, z, |mem|, [first] + others)
    requires S.ValidJobs(cfg, z, |mem|, others) && H.Asks(z, first, C.SetStartAddress(a))
    requires H.AllSpare(cfg, z, others, cfg.flagsAddress + 32, 4)
    ensures var next, at := S.MemAfter(cfg, z, mem, [first] + others), cfg.flagsAddress + 32;
      at + 4 <= |next| && next[at..at + 4] == LeU32(a)
  {
    assert ([first] + others)[0] == first;
    H.JobFits(cfg, z, |mem|, first, C.SetStartAddress(a));
    assert cfg.flagsAddress + 36 <= |mem|;
    hide *;
    AddressStored(cfg, z, mem, C.SetStartAddress(a));
    H.FirstKept(cfg, z, mem, first, C.SetStartAddress(a), others, cfg.flagsAddress + 32, 4);
  }

  lemma StoredThroughSession(cfg: Config, z: Sizes, size: nat, s: S.Stack, first: S.Job, a: u32, others: seq<S.Job>)
    returns (next: seq<u8>)
    requires S.StackInv(cfg, z, size, s) && Armed(S.Flat(s)) && S.ValidJobs(cfg, z, |s.mem|, [first] + others)
    requires S.ValidJobs(cfg, z, |s.mem|, others) && H.Asks(z, first, C.SetStartAddress(a))
    requires H.AllSpare(cfg, z, others, cfg.flagsAddress + 32, 4)
    ensures next == S.RunJobs(cfg, z, size, s, [first] + others).mem && cfg.flagsAddress + 36 <= |next|
    ensures ReadU32(next[cfg.flagsAddress + 32..cfg.flagsAddress + 36]) == a
  {
    assert ValidSizes(z, |s.mem|);
    LeU32RoundTrip(a, [0, 0, 0, 0]);
    hide *;
    StoredAfter(cfg, z, s.mem, first, a, others);
    S.StackRefines(cfg, z, size, s, [first] + others);
    next := S.MemAfter(cfg, z, s.mem, [first] + others);
  }

  /** So it is after a whole session: SetStartAddress(a) through the stack, then any jobs that spare the four bytes, and
      a restart on the flash they leave. */
  method BootAfterSession(
      cfg: Config, z: Sizes, size: nat, s: S.Stack, first: S.Job, a: u32, others: seq<S.Job>, bus: u32)
    returns (target: Option<u32>)
    requires S.StackInv(cfg, z, size, s) && Armed(S.Flat(s)) && S.ValidJobs(cfg, z, |s.mem|, [first] + others)
    requires S.ValidJobs(cfg, z, |s.mem|, others) && H.Asks(z, first, C.SetStartAddress(a))
    requires H.AllSpare(cfg, z, others, cfg.flagsAddress + 32, 4)
    ensures var next := S.RunJobs(cfg, z, size, s, [first] + others).mem;
      target == if 0x8000 <= a < 0x20_0000 && WordAt(next, a, bus) != 0xFFFF_FFFF then Some(a) else None
  {
    hide S.StackInv, Armed, S.ValidJob, S.ValidJobs, S.RunJobs, S.MemAfter, H.AllSpare, ReadU32, WordAt;
    ghost var next := StoredThroughSession(cfg, z, size, s, first, a, others);
    target := Restart(cfg.flagsAddress, S.RunJobs(cfg, z, size, s, [first] + others).mem, bus);
  }
}
