/** CRC-32: the table-driven step of the bootloaders equals the bit-at-a-time definition. */
module Crc {
  import opened Bytes
  import opened CrcTable

  function Widen(b: u8): bv32 {
    (b as bv8) as bv32
  }

  /** `x` is the register with the byte xored in; its low eight bits pick an entry. */
  function Lookup(entry: bv8 -> bv32, rest: bv32, x: bv32): bv32 {
    entry((x & 0xFF) as bv8) ^ rest
  }

  function Feed(shifts: bv32 -> bv32, x: bv32): bv32 {
    shifts(x)
  }

  /** One byte, as both bootloaders compute it. */
  function TableStep(crc: bv32, b: u8): bv32 {
    Lookup(TableEntry, crc >> 8, crc ^ Widen(b))
  }

  /** One byte, as section 8 of RFC 1952 defines it. */
  function BitStep(crc: bv32, b: u8): bv32 {
    Feed(EightShifts, crc ^ Widen(b))
  }

  /** The register after `data`, one step per byte. */
  function Fold<T>(step: (T, u8) -> T, register: T, data: seq<u8>): T
    decreases data
  {
    if data == [] then register else Fold(step, step(register, data[0]), data[1..])
  }

  function Complement(crc: bv32): bv32 {
    crc ^ 0xFFFF_FFFF
  }

  /** The CRC-32 of `data` continued from `start`, bit by bit. */
  function Crc32(start: bv32, data: seq<u8>): bv32 {
    Complement(Fold(BitStep, Complement(start), data))
  }

  // ---- eight shifts split into the low byte and the rest --------------------

  function Eight<T>(f: T -> T, c: T): T {
    f(f(f(f(f(f(f(f(c))))))))
  }

  predicate EightEven<T>(half: T -> T, even: T -> bool, h: T) {
    && even(h) && even(half(h)) && even(half(half(h))) && even(half(half(half(h))))
    && even(half(half(half(half(h))))) && even(half(half(half(half(half(h))))))
    && even(half(half(half(half(half(half(h))))))) && even(half(half(half(half(half(half(half(h))))))))
  }

  ghost predicate Commutes<T(!new)>(f: T -> T, xor: (T, T) -> T, half: T -> T, even: T -> bool) {
    forall l: T, h: T {:trigger xor(l, h)} :: even(h) ==> f(xor(l, h)) == xor(f(l), half(h))
  }

  /** Stated for any type, so that no bit-vector reasoning is involved. */
  lemma EightCommute<T(!new)>(f: T -> T, xor: (T, T) -> T, half: T -> T, even: T -> bool, low: T, high: T)
    requires Commutes(f, xor, half, even)
    requires EightEven(half, even, high)
    ensures Eight(f, xor(low, high)) == xor(Eight(f, low), Eight(half, high))
  {
  }

  lemma OddShift(low: bv32, high: bv32, both: bv32)
    requires both == low ^ high && high & 1 == 0
    ensures 0xEDB88320 ^ (both >> 1) == (0xEDB88320 ^ (low >> 1)) ^ (high >> 1)
  {
  }

  lemma EvenShift(low: bv32, high: bv32, both: bv32)
    requires both == low ^ high && high & 1 == 0
    ensures both & 1 == low & 1
    ensures both >> 1 == (low >> 1) ^ (high >> 1)
  {
  }

  lemma OddShiftXor(c: bv32)
    requires c & 1 == 1
    ensures ShiftXor(c) == 0xEDB88320 ^ (c >> 1)
  {
  }

  lemma EvenShiftXor(c: bv32)
    requires c & 1 != 1
    ensures ShiftXor(c) == c >> 1
  {
  }

  lemma ShiftOdd(low: bv32, high: bv32, both: bv32)
    requires both == low ^ high && high & 1 == 0 && low & 1 == 1
    ensures ShiftXor(both) == ShiftXor(low) ^ (high >> 1)
  {
    EvenShift(low, high, both);
    OddShift(low, high, both);
    OddShiftXor(low);
    OddShiftXor(both);
  }

  lemma ShiftEven(low: bv32, high: bv32, both: bv32)
    requires both == low ^ high && high & 1 == 0 && low & 1 != 1
    ensures ShiftXor(both) == ShiftXor(low) ^ (high >> 1)
  {
    EvenShift(low, high, both);
    EvenShiftXor(low);
    EvenShiftXor(both);
  }

  lemma ShiftSplits(low: bv32, high: bv32, both: bv32)
    requires both == low ^ high && high & 1 == 0
    ensures ShiftXor(both) == ShiftXor(low) ^ (high >> 1)
  {
    if low & 1 == 1 {
      ShiftOdd(low, high, both);
    } else {
      ShiftEven(low, high, both);
    }
  }

  function Xor(a: bv32, b: bv32): bv32 {
    a ^ b
  }

  function Half(a: bv32): bv32 {
    a >> 1
  }

  predicate Even(a: bv32) {
    a & 1 == 0
  }

  lemma HighBits(high: bv32)
    requires high & 0xFF == 0
    ensures EightEven(Half, Even, high)
    ensures Eight(Half, high) == high >> 8
  {
  }

  lemma XorSplits(low: bv32, high: bv32)
    requires Even(high)
    ensures ShiftXor(Xor(low, high)) == Xor(ShiftXor(low), Half(high))
  {
    ShiftSplits(low, high, Xor(low, high));
  }

  lemma ShiftCommutes()
    ensures Commutes(ShiftXor, Xor, Half, Even)
  {
    forall l: bv32, h: bv32 | Even(h)
      ensures ShiftXor(Xor(l, h)) == Xor(ShiftXor(l), Half(h))
    {
      XorSplits(l, h);
    }
  }

  lemma Halves(x: bv32)
    ensures x == (x & 0xFF) ^ (x & 0xFFFF_FF00) && (x & 0xFFFF_FF00) & 0xFF == 0
    ensures (x & 0xFFFF_FF00) >> 8 == x >> 8
  {
  }

  lemma ByteSplits(x: bv32)
    ensures Eight(ShiftXor, x) == Eight(ShiftXor, x & 0xFF) ^ (x >> 8)
  {
    var low, high := x & 0xFF, x & 0xFFFF_FF00;
    Halves(x);
    HighBits(high);
    ShiftCommutes();
    EightCommute(ShiftXor, Xor, Half, Even, low, high);
  }

  lemma EightIs(c: bv32)
    ensures Eight(ShiftXor, c) == EightShifts(c)
  {
  }

  lemma ShiftsSplit(x: bv32)
    ensures EightShifts(x) == EightShifts(x & 0xFF) ^ (x >> 8)
  {
    EightIs(x);
    EightIs(x & 0xFF);
    ByteSplits(x);
  }

  lemma LowEntry(x: bv32)
    ensures TableEntry((x & 0xFF) as bv8) == EightShifts(x & 0xFF)
  {
    TableIsRight((x & 0xFF) as bv8);
    assert ((x & 0xFF) as bv8) as bv32 == x & 0xFF;
  }

  lemma EntryPlusRest(x: bv32)
    ensures EightShifts(x) == TableEntry((x & 0xFF) as bv8) ^ (x >> 8)
  {
    LowEntry(x);
    ShiftsSplit(x);
  }

  lemma SameStep(shifts: bv32 -> bv32, entry: bv8 -> bv32, rest: bv32, x: bv32)
    requires x >> 8 == rest
    requires Lookup(entry, x >> 8, x) == Feed(shifts, x)
    ensures Lookup(entry, rest, x) == Feed(shifts, x)
  {
  }

  lemma StepFor(shifts: bv32 -> bv32, entry: bv8 -> bv32, rest: bv32, x: bv32)
    requires shifts(x) == entry((x & 0xFF) as bv8) ^ rest
    ensures Lookup(entry, rest, x) == Feed(shifts, x)
  {
  }

  lemma StepAt(x: bv32)
    ensures Lookup(TableEntry, x >> 8, x) == Feed(EightShifts, x)
  {
    EntryPlusRest(x);
    StepFor(EightShifts, TableEntry, x >> 8, x);
  }

  lemma LowByte(crc: bv32, b: bv8, x: bv32)
    requires x == crc ^ (b as bv32)
    ensures x >> 8 == crc >> 8
  {
  }

  lemma FeedsLow(crc: bv32, b: u8)
    ensures (crc ^ Widen(b)) >> 8 == crc >> 8
  {
    LowByte(crc, b as bv8, crc ^ Widen(b));
  }

  /** For every register value and byte, the table step is the eight shift/xor steps. */
  lemma StepsAgree(crc: bv32, b: u8)
    ensures TableStep(crc, b) == BitStep(crc, b)
  {
    hide Lookup, Feed, Widen, TableEntry, EightShifts;
    var x := crc ^ Widen(b);
    FeedsLow(crc, b);
    StepAt(x);
    SameStep(EightShifts, TableEntry, crc >> 8, x);
  }

  lemma {:induction false} SameFold<T(!new)>(f: (T, u8) -> T, g: (T, u8) -> T, register: T, data: seq<u8>)
    requires forall r: T, b: u8 :: f(r, b) == g(r, b)
    ensures Fold(f, register, data) == Fold(g, register, data)
    decreases data
  {
    if data != [] {
      SameFold(f, g, f(register, data[0]), data[1..]);
    }
  }

  /** So the fast form computes the CRC of every byte string. */
  lemma FoldsAgree(crc: bv32, data: seq<u8>)
    ensures Fold(TableStep, crc, data) == Fold(BitStep, crc, data)
  {
    forall r: bv32, b: u8 ensures TableStep(r, b) == BitStep(r, b) {
      StepsAgree(r, b);
    }
    SameFold(TableStep, BitStep, crc, data);
  }

  /** The register started at all ones and complemented at the end is the CRC-32. */
  lemma FastIsCrc32(data: seq<u8>)
    ensures Complement(Fold(TableStep, 0xFFFF_FFFF, data)) == Crc32(0, data)
  {
    FoldsAgree(0xFFFF_FFFF, data);
    FromZero();
  }

  lemma FromZero()
    ensures Complement(0) == 0xFFFF_FFFF
  {
  }

  lemma FoldNext<T>(step: (T, u8) -> T, register: T, data: seq<u8>, i: nat)
    requires i < |data|
    ensures Fold(step, register, data[i..]) == Fold(step, step(register, data[i]), data[i + 1..])
  {
    assert data[i..][0] == data[i] && data[i..][1..] == data[i + 1..];
  }

  /** A register taken over `a` and then over `b` is the register taken over `a + b`. */
  lemma {:induction false} FoldConcat<T>(step: (T, u8) -> T, register: T, a: seq<u8>, b: seq<u8>)
    ensures Fold(step, register, a + b) == Fold(step, Fold(step, register, a), b)
    decreases a
  {
    if a == [] {
      assert a + b == b;
    } else {
      assert (a + b)[0] == a[0] && (a + b)[1..] == a[1..] + b;
      FoldConcat(step, step(register, a[0]), a[1..], b);
    }
  }

  /** Continuing a finished CRC over more data gives the CRC of the concatenation. */
  lemma Continues(start: bv32, a: seq<u8>, b: seq<u8>)
    ensures Crc32(Crc32(start, a), b) == Crc32(start, a + b)
  {
    FoldConcat(BitStep, Complement(start), a, b);
    Undone(Fold(BitStep, Complement(start), a));
  }

  lemma Undone(c: bv32)
    ensures Complement(Complement(c)) == c
  {
  }

  /** The legacy `crc32(crc, buf, size)`. */
  method LegacyCrc32(start: bv32, buf: seq<u8>) returns (crc: bv32)
    ensures crc == Crc32(start, buf)
  {
    crc := Complement(start);
    FoldsAgree(crc, buf);
    var p := 0;
    while p < |buf|
      invariant p <= |buf|
      invariant Fold(TableStep, Complement(start), buf) == Fold(TableStep, crc, buf[p..])
    {
      FoldNext(TableStep, crc, buf, p);
      crc := TableStep(crc, buf[p]);
      p := p + 1;
    }
    crc := Complement(crc);
  }

  // ---- the register as a number -------------------------------------------

  function RegisterByte(crc: bv32, i: nat): u8
    requires i < 4
  {
    ((crc >> (8 * i)) & 0xFF) as bv8 as int
  }

  /** The four bytes sent for a CRC, least significant first. */
  function RegisterBytes(crc: bv32): (s: seq<u8>)
    ensures |s| == 4
  {
    [RegisterByte(crc, 0), RegisterByte(crc, 1), RegisterByte(crc, 2), RegisterByte(crc, 3)]
  }

  lemma TopOf32(x: bv32)
    ensures x as int == (x & 0xFF_FFFF) as int + 0x100_0000 * ((x >> 24) as bv8 as int)
  {
  }

  lemma TopOf24(x: bv32)
    requires x < 0x100_0000
    ensures x as int == (x & 0xFFFF) as int + 0x1_0000 * ((x >> 16) as bv8 as int)
  {
  }

  lemma TopOf16(x: bv32)
    requires x < 0x1_0000
    ensures x as int == (x & 0xFF) as bv8 as int + 0x100 * ((x >> 8) as bv8 as int)
  {
  }

  lemma BytesWithin(x: bv32, y: bv32, z: bv32)
    requires y == x & 0xFF_FFFF && z == y & 0xFFFF
    ensures y < 0x100_0000 && z < 0x1_0000 && z & 0xFF == x & 0xFF
    ensures (z >> 8) as bv8 == ((x >> 8) & 0xFF) as bv8 && (y >> 16) as bv8 == ((x >> 16) & 0xFF) as bv8
    ensures (x >> 24) as bv8 == ((x >> 24) & 0xFF) as bv8
  {
  }

  lemma EachByte(crc: bv32)
    ensures RegisterByte(crc, 0) == (crc & 0xFF) as bv8 as int
    ensures RegisterByte(crc, 1) == ((crc >> 8) & 0xFF) as bv8 as int
    ensures RegisterByte(crc, 2) == ((crc >> 16) & 0xFF) as bv8 as int
    ensures RegisterByte(crc, 3) == ((crc >> 24) & 0xFF) as bv8 as int
  {
  }

  lemma RegisterIsSum(crc: bv32)
    ensures crc as int
      == (RegisterByte(crc, 0) as int) + 0x100 * (RegisterByte(crc, 1) as int)
         + 0x1_0000 * (RegisterByte(crc, 2) as int) + 0x100_0000 * (RegisterByte(crc, 3) as int)
  {
    var y := crc & 0xFF_FFFF;
    var z := y & 0xFFFF;
    EachByte(crc);
    BytesWithin(crc, y, z);
    TopOf32(crc);
    TopOf24(y);
    TopOf16(z);
    hide RegisterByte;
  }

  lemma RegisterIsWord(crc: bv32)
    ensures crc as int == LittleWord(RegisterBytes(crc), 0)
  {
    hide RegisterByte;
    RegisterIsSum(crc);
  }

  lemma WordReads(bytes: seq<u8>)
    requires |bytes| == 4
    ensures ReadU32(bytes) == LittleWord(bytes, 0) && bytes == LeU32(LittleWord(bytes, 0))
  {
    LeU32RoundTrip(0, bytes);
  }

  /** The four bytes are those of the register as a number, least significant first: whoever reads them so reads the
      CRC. */
  lemma BytesAreRegister(crc: bv32)
    ensures ReadU32(RegisterBytes(crc)) == crc as int
    ensures RegisterBytes(crc) == LeU32(crc as int)
  {
    hide RegisterBytes, LittleWord, LeU32, ReadU32;
    RegisterIsWord(crc);
    WordReads(RegisterBytes(crc));
  }

  lemma FoldOne<T>(step: (T, u8) -> T, register: T, b: u8)
    ensures Fold(step, register, [b]) == step(register, b)
  {
    assert [b][1..] == [];
  }

  lemma OneByte(b: u8)
    ensures Crc32(0, [b]) == Complement(BitStep(0xFFFF_FFFF, b))
  {
    FromZero();
    FoldOne(BitStep, Complement(0), b);
  }

  lemma ShiftsOf7D(x: bv32)
    requires x == 0xFFFF_FFFF ^ 0x7D
    ensures EightShifts(x) ^ 0xFFFF_FFFF == 0xFCB6_E20C
  {
  }

  lemma Widen7D()
    ensures 0xFFFF_FFFF ^ Widen(0x7D) == 0xFFFF_FFFF ^ 0x7D
  {
  }

  lemma BitStepOf7D()
    ensures Complement(BitStep(0xFFFF_FFFF, 0x7D)) == 0xFCB6_E20C
  {
    hide Widen, EightShifts;
    Widen7D();
    ShiftsOf7D(0xFFFF_FFFF ^ Widen(0x7D));
  }

  /** The CRC-32 of the one byte 0x7D, as it is sent: its last byte is 0xFC. */
  lemma CrcOf7D()
    ensures Crc32(0, [0x7D]) == 0xFCB6_E20C
    ensures RegisterBytes(Crc32(0, [0x7D])) == [0x0C, 0xE2, 0xB6, 0xFC]
  {
    hide Crc32, BitStep, Complement, RegisterByte, RegisterBytes;
    OneByte(0x7D);
    BitStepOf7D();
    BytesAreRegister(0xFCB6_E20C);
    assert LeU32(0xFCB6_E20C) == [0x0C, 0xE2, 0xB6, 0xFC];
  }
}
