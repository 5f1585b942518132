/** The general-purpose fuses of the SAM4L flash controller: erasing only sets bits, writing only clears them. */
module GpFuses {
  import opened Arithmetic
  import opened Bytes

  const FUSES := 64

  // ---- numbers as bits ------------------------------------------------------------------

  function Bit(v: nat, k: nat): bool {
    if k == 0 then v % 2 == 1 else Bit(v / 2, k - 1)
  }

  /** `v >> n` */
  function Shifted(v: nat, n: nat): nat {
    if n == 0 then v else Shifted(v / 2, n - 1)
  }

  /** `v & ((1 << n) - 1)` */
  function Masked(v: nat, n: nat): nat {
    if n == 0 then 0 else v % 2 + 2 * Masked(v / 2, n - 1)
  }

  /** `n` ones. */
  function Ones(n: nat): nat {
    if n == 0 then 0 else 1 + 2 * Ones(n - 1)
  }

  /** The number whose bits these are, least significant first. */
  function ValueOf(bits: seq<bool>): nat {
    if bits == [] then 0 else (if bits[0] then 1 else 0) + 2 * ValueOf(bits[1..])
  }

  /** Shifting one part behind another. */
  lemma {:induction false} ValueConcat(a: seq<bool>, b: seq<bool>)
    ensures ValueOf(a + b) == ValueOf(a) + Pow2(|a|) * ValueOf(b)
  {
    if a == [] {
      assert a + b == b;
    } else {
      assert (a + b)[0] == a[0] && (a + b)[1..] == a[1..] + b;
      ValueConcat(a[1..], b);
      Twice(Pow2(|a| - 1), ValueOf(b));
    }
  }

  lemma Twice(p: nat, v: nat)
    ensures 2 * (p * v) == 2 * p * v
  {
  }

  lemma {:induction false} ValueFits(bits: seq<bool>)
    ensures Shifted(ValueOf(bits), |bits|) == 0
  {
    if bits != [] {
      ValueFits(bits[1..]);
    }
  }

  lemma {:induction false} ValueBits(bits: seq<bool>, k: nat)
    requires k < |bits|
    ensures Bit(ValueOf(bits), k) == bits[k]
    decreases k
  {
    if k > 0 {
      ValueBits(bits[1..], k - 1);
    }
  }

  lemma {:induction false} ShiftedBit(v: nat, n: nat, k: nat)
    ensures Bit(Shifted(v, n), k) == Bit(v, n + k)
    decreases n
  {
    if n > 0 {
      ShiftedBit(v / 2, n - 1, k);
    }
  }

  lemma {:induction false} MaskedBit(v: nat, n: nat, k: nat)
    ensures Bit(Masked(v, n), k) == (k < n && Bit(v, k))
    decreases n
  {
    if n == 0 {
      ZeroBit(k);
    } else if k > 0 {
      MaskedBit(v / 2, n - 1, k - 1);
    }
  }

  lemma {:induction false} OneBit(n: nat, k: nat)
    requires k < n
    ensures Bit(Ones(n), k)
    decreases n
  {
    if k > 0 {
      OneBit(n - 1, k - 1);
    }
  }

  lemma {:induction false} ZeroBit(k: nat)
    ensures !Bit(0, k)
  {
    if k > 0 {
      ZeroBit(k - 1);
    }
  }

  lemma {:induction false} MaskedFits(v: nat, n: nat)
    ensures Shifted(Masked(v, n), n) == 0
    decreases n
  {
    if n > 0 {
      MaskedFits(v / 2, n - 1);
    }
  }

  lemma {:induction false} BeyondFits(v: nat, n: nat, k: nat)
    requires Shifted(v, n) == 0 && n <= k
    ensures !Bit(v, k)
    decreases n
  {
    if n == 0 {
      ZeroBit(k);
    } else {
      BeyondFits(v / 2, n - 1, k - 1);
    }
  }

  /** Numbers of `n` bits with the same bits are the same. */
  lemma {:induction false} SameBits(a: nat, b: nat, n: nat)
    requires Shifted(a, n) == 0 && Shifted(b, n) == 0 && forall k :: 0 <= k < n ==> Bit(a, k) == Bit(b, k)
    ensures a == b
    decreases n
  {
    if n > 0 {
      assert Bit(a, 0) == Bit(b, 0);
      forall k | 0 <= k < n - 1 ensures Bit(a / 2, k) == Bit(b / 2, k) {
        assert Bit(a, k + 1) == Bit(b, k + 1);
      }
      SameBits(a / 2, b / 2, n - 1);
    }
  }

  function Pow2(n: nat): (p: nat)
    ensures p > 0
  {
    if n == 0 then 1 else 2 * Pow2(n - 1)
  }

  lemma Halved(v: nat, p: nat)
    requires p > 0
    ensures v / (2 * p) == v / 2 / p && v % (2 * p) == v % 2 + 2 * (v / 2 % p)
  {
    var q, r := v / 2 / p, v / 2 % p;
    assert v / 2 == p * q + r;
    assert 2 * p * q == 2 * (p * q);
    DivisionIs(v, 2 * p, q, 2 * r + v % 2);
  }

  /** Shifting and masking are division by a power of two. */
  lemma {:induction false} ShiftIsDivision(v: nat, n: nat)
    ensures Masked(v, n) == v % Pow2(n) && Shifted(v, n) == v / Pow2(n)
    decreases n
  {
    if n > 0 {
      ShiftIsDivision(v / 2, n - 1);
      Halved(v, Pow2(n - 1));
    }
  }

  lemma ByteIsMasked(v: nat)
    ensures v % 256 == Masked(v, 8) && v / 256 == Shifted(v, 8)
  {
    assert Pow2(4) == 2 * Pow2(3) && Pow2(3) == 2 * Pow2(2) && Pow2(2) == 2 * Pow2(1) && Pow2(1) == 2 * Pow2(0);
    assert Pow2(8) == 2 * Pow2(7) && Pow2(7) == 2 * Pow2(6) && Pow2(6) == 2 * Pow2(5) && Pow2(5) == 2 * Pow2(4);
    hide Masked, Shifted;
    ShiftIsDivision(v, 8);
  }

  /** Bit `k` of a number is bit `offset + k` of another. */
  ghost predicate Continues(v: nat, value: nat, offset: nat) {
    forall k: nat :: Bit(v, k) == Bit(value, offset + k)
  }

  lemma NextBits(v: nat, value: nat, offset: nat)
    requires Continues(v, value, offset)
    ensures Bit(v, 0) == Bit(value, offset) && Continues(v / 2, value, offset + 1)
  {
    assert Bit(v, 0) == Bit(value, offset + 0);
    forall k: nat ensures Bit(v / 2, k) == Bit(value, offset + 1 + k) {
      assert Bit(v, k + 1) == Bit(value, offset + (k + 1));
    }
  }

  lemma NextByte(v: nat, value: nat, offset: nat)
    requires Continues(v, value, offset)
    ensures forall k :: 0 <= k < 8 ==> Bit(v % 256, k) == Bit(value, offset + k)
    ensures Continues(v / 256, value, offset + 8)
  {
    ByteIsMasked(v);
    hide Bit, Masked, Shifted;
    forall k | 0 <= k < 8 ensures Bit(v % 256, k) == Bit(value, offset + k) {
      MaskedBit(v, 8, k);
    }
    forall k: nat ensures Bit(v / 256, k) == Bit(value, offset + 8 + k) {
      ShiftedBit(v, 8, k);
      assert Bit(v, 8 + k) == Bit(value, offset + (8 + k));
    }
  }

  // ---- fuses in bytes and in fields ----------------------------------------------------------

  /** The byte a fuse belongs to, and its place in it. */
  function ByteOf(i: nat): nat {
    i / 8
  }

  function PlaceOf(i: nat): (k: nat)
    ensures k < 8 && i == 8 * ByteOf(i) + k
  {
    i % 8
  }

  lemma ByteIs(i: nat, n: nat)
    requires 8 * n <= i < 8 * n + 8
    ensures ByteOf(i) == n
  {
  }

  lemma BytesInRange()
    ensures forall i :: 0 <= i < FUSES ==> ByteOf(i) < 8
  {
  }

  /** Fuse number `k` of the field at `pos`: fields run on from fuse 63 to fuse 0. */
  function FieldPlace(pos: nat, k: nat): (i: nat)
    ensures i < FUSES
  {
    (pos + k) % FUSES
  }

  lemma PlacesDiffer(pos: nat, done: nat)
    requires done < FUSES
    ensures forall k :: 0 <= k < done ==> FieldPlace(pos, k) != FieldPlace(pos, done)
  {
    forall k | 0 <= k < done ensures FieldPlace(pos, k) != FieldPlace(pos, done) {
      TwoPlaces(pos, k, done);
    }
  }

  lemma TwoPlaces(pos: nat, j: nat, k: nat)
    requires j < k < FUSES
    ensures FieldPlace(pos, j) != FieldPlace(pos, k)
  {
  }

  lemma SamePlace(position: nat, k: nat)
    ensures FieldPlace(position % FUSES, k) == FieldPlace(position, k)
  {
  }

  ghost predicate InField(i: nat, pos: nat, width: nat) {
    exists k :: 0 <= k < width && i == FieldPlace(pos, k)
  }

  /** The field holds the value's bits, and every other fuse is as it was. */
  ghost predicate FieldSet(now: seq<bool>, was: seq<bool>, pos: nat, width: nat, value: nat) {
    && |now| == |was| == FUSES
    && (forall k :: 0 <= k < width ==> now[FieldPlace(pos, k)] == Bit(value, k))
    && (forall i :: 0 <= i < FUSES && !InField(i, pos, width) ==> now[i] == was[i])
  }

  lemma FieldGrows(now: seq<bool>, was: seq<bool>, pos: nat, width: nat, value: nat, bit: bool)
    requires FieldSet(now, was, pos, width, value) && width < FUSES && bit == Bit(value, width)
    ensures FieldSet(now[FieldPlace(pos, width) := bit], was, pos, width + 1, value)
  {
    hide Bit, FieldPlace;
    PlacesDiffer(pos, width);
    var next := now[FieldPlace(pos, width) := bit];
    forall i | 0 <= i < FUSES && !InField(i, pos, width + 1) ensures next[i] == was[i] {
      assert i != FieldPlace(pos, width);
      assert !InField(i, pos, width);
    }
  }

  lemma FieldMoves(now: seq<bool>, was: seq<bool>, position: nat, width: nat, value: nat)
    requires FieldSet(now, was, position % FUSES, width, value)
    ensures FieldSet(now, was, position, width, value)
  {
    hide Bit, FieldPlace;
    forall k | 0 <= k < width ensures FieldPlace(position % FUSES, k) == FieldPlace(position, k) {
      SamePlace(position, k);
    }
    forall i | 0 <= i < FUSES && !InField(i, position, width) ensures !InField(i, position % FUSES, width) {
    }
  }

  /** The number has the field's fuses as its bits, zeros for places past fuse 63, and no others. */
  ghost predicate FieldRead(bits: seq<bool>, pos: nat, width: nat, value: nat) {
    && |bits| == FUSES && Shifted(value, width) == 0
    && forall k :: 0 <= k < width ==> Bit(value, k) == (pos + k < FUSES && bits[pos + k])
  }

  /** All bytes before `current` but byte `n` are as before the erase, the others are erased. */
  ghost predicate Restored(now: seq<bool>, before: seq<bool>, n: nat, current: nat) {
    && |now| == |before| == FUSES
    && forall i :: 0 <= i < FUSES ==> now[i] == if ByteOf(i) < current && ByteOf(i) != n then before[i] else true
  }

  lemma RestoredNext(
      now: seq<bool>, next: seq<bool>, before: seq<bool>, n: nat, current: nat, byte: u8, value: nat)
    requires Restored(now, before, n, current) && |next| == FUSES && current < 8
    requires forall i :: 0 <= i < FUSES ==> Bit(value, i) == before[i]
    requires forall k :: 0 <= k < 8 ==> Bit(byte, k) == Bit(value, 8 * current + k)
    requires if current == n then next == now
      else forall i :: 0 <= i < FUSES ==>
        next[i] == (now[i] && (ByteOf(i) == current % 8 ==> Bit(byte, PlaceOf(i))))
    ensures Restored(next, before, n, current + 1)
  {
    hide Bit, ByteOf;
    forall i | 0 <= i < FUSES
      ensures next[i] == if ByteOf(i) < current + 1 && ByteOf(i) != n then before[i] else true
    {
      assert i == 8 * ByteOf(i) + PlaceOf(i);
    }
  }

  lemma AllRestored(now: seq<bool>, before: seq<bool>, n: nat)
    requires Restored(now, before, n, 8)
    ensures forall i :: 0 <= i < FUSES ==> now[i] == (ByteOf(i) == n || before[i])
  {
    BytesInRange();
  }

  class GpFuses {
    const bits: array<bool>

    ghost predicate Valid() {
      bits.Length == FUSES
    }

    constructor (initial: seq<bool>)
      requires |initial| == FUSES
      ensures Valid() && fresh(bits) && bits[..] == initial
    {
      bits := new bool[FUSES](i requires 0 <= i < FUSES => initial[i]);
    }

    method ReadAll() returns (value: nat)
      requires Valid()
      ensures Shifted(value, FUSES) == 0 && forall k :: 0 <= k < FUSES ==> Bit(value, k) == bits[k]
    {
      var low, high := ValueOf(bits[..32]), ValueOf(bits[32..]);
      value := low + Pow2(32) * high;
      assert bits[..] == bits[..32] + bits[32..];
      hide Bit, Pow2, Shifted, ValueOf;
      ValueConcat(bits[..32], bits[32..]);
      ValueFits(bits[..]);
      forall k | 0 <= k < FUSES ensures Bit(value, k) == bits[k] {
        ValueBits(bits[..], k);
      }
    }

    /** Erase: the bit is set. */
    method EraseBit(n: nat)
      requires Valid()
      modifies bits
      ensures bits[..] == old(bits[..])[n % FUSES := true]
    {
      bits[n % FUSES] := true;
    }

    /** Write: the bit is cleared if that is what is asked for. */
    method WriteBit(n: nat, value: bool)
      requires Valid()
      modifies bits
      ensures bits[..] == if value then old(bits[..]) else old(bits[..])[n % FUSES := false]
    {
      if !value {
        bits[n % FUSES] := false;
      }
    }

    method EraseAll()
      requires Valid()
      modifies bits
      ensures forall i :: 0 <= i < FUSES ==> bits[i]
    {
      for i := 0 to FUSES
        invariant forall j :: 0 <= j < i ==> bits[j]
      {
        bits[i] := true;
      }
    }

    /** Program a byte: of its eight bits, those that are clear in the value are cleared. */
    method WriteByte(n: nat, value: u8)
      requires Valid()
      modifies bits
      ensures forall i :: 0 <= i < FUSES ==>
        bits[i] == (old(bits[i]) && (ByteOf(i) == n % 8 ==> Bit(value, PlaceOf(i))))
    {
      hide Bit, ByteOf;
      var byte := n % 8;
      for k := 0 to 8
        invariant forall i :: 0 <= i < FUSES ==>
          bits[i] == (old(bits[i]) && (ByteOf(i) == byte && PlaceOf(i) < k ==> Bit(value, PlaceOf(i))))
      {
        ByteIs(8 * byte + k, byte);
        bits[8 * byte + k] := bits[8 * byte + k] && Bit(value, k);
      }
    }

    // ---- clear-only and set-only operations combined ---------------------------------------

    method SetBit(n: nat, value: bool)
      requires Valid()
      modifies bits
      ensures bits[..] == old(bits[..])[n % FUSES := value]
    {
      if value {
        EraseBit(n);
      } else {
        WriteBit(n, false);
      }
    }

    /** Exactly the field's fuses take the value's bits; every other fuse is as before. */
    method SetBitfield(position: nat, fieldWidth: nat, value: nat)
      requires Valid()
      modifies bits
      ensures FieldSet(bits[..], old(bits[..]), position, Min(fieldWidth, FUSES), value)
    {
      var pos, width := position % FUSES, Min(fieldWidth, FUSES);
      var n, v := pos, value;
      ghost var was := bits[..];
      assert FieldSet(was, was, pos, 0, value) && Continues(v, value, 0);
      hide Bit, FieldSet, Continues;
      while n < pos + width
        invariant pos <= n <= pos + width
        invariant Continues(v, value, n - pos)
        invariant FieldSet(bits[..], was, pos, n - pos, value)
      {
        NextBits(v, value, n - pos);
        ParityIs(v);
        FieldGrows(bits[..], was, pos, n - pos, value, v % 2 == 1);
        SetBit(n, v % 2 == 1);
        n := n + 1;
        v := v / 2;
      }
      FieldMoves(bits[..], was, position, width, value);
    }

    method RestoreByte(n: nat, current: nat, byte: u8, ghost value: nat, ghost before: seq<bool>)
      requires Valid() && current < 8 && Restored(bits[..], before, n, current)
      requires forall i :: 0 <= i < FUSES ==> Bit(value, i) == before[i]
      requires forall k :: 0 <= k < 8 ==> Bit(byte, k) == Bit(value, 8 * current + k)
      modifies bits
      ensures Restored(bits[..], before, n, current + 1)
    {
      ghost var now := bits[..];
      hide Bit, ByteOf, Restored;
      if current != n {
        WriteByte(current, byte);
      }
      RestoredNext(now, bits[..], before, n, current, byte, value);
    }

    /** The byte's bits are set by erasing all fuses and writing the others back. */
    method EraseByte(n: nat)
      requires Valid()
      modifies bits
      ensures forall i :: 0 <= i < FUSES ==> bits[i] == (ByteOf(i) == n || old(bits[i]))
    {
      var value := ReadAll();
      ghost var before := bits[..];
      EraseAll();
      var v := value;
      assert Continues(value, value, 0);
      assert Restored(bits[..], before, n, 0);
      hide Bit, ValueOf, ByteOf, Continues, Restored;
      for current := 0 to 8
        invariant Continues(v, value, 8 * current) && Restored(bits[..], before, n, current)
      {
        NextByte(v, value, 8 * current);
        RestoreByte(n, current, v % 256, value, before);
        v := v / 256;
      }
      AllRestored(bits[..], before, n);
    }

    /** A byte of fuses takes a value; the others are as before. A number above seven names no byte to the erase
        but one of the eight to the write: then bits are only cleared. */
    method SetByte(n: nat, value: u8)
      requires Valid()
      modifies bits
      ensures forall i :: 0 <= i < FUSES ==>
        bits[i] == if ByteOf(i) != n % 8 then old(bits[i])
                   else if n < 8 then Bit(value, PlaceOf(i))
                   else old(bits[i]) && Bit(value, PlaceOf(i))
    {
      hide Bit, ByteOf;
      if value == 0xFF {
        AllOnes();
        EraseByte(n);
        BytesInRange();
      } else if value == 0x00 {
        AllZeros();
        WriteByte(n, 0x00);
      } else {
        EraseByte(n);
        WriteByte(n, value);
        BytesInRange();
      }
    }

    /** Bits are cleared byte by byte. */
    method WriteAll(value: nat)
      requires Valid()
      modifies bits
      ensures forall i :: 0 <= i < FUSES ==> bits[i] == (old(bits[i]) && Bit(value, i))
    {
      var v := value;
      assert Continues(v, value, 0);
      hide Bit, ByteOf, Continues;
      for n := 0 to 8
        invariant Continues(v, value, 8 * n)
        invariant forall i :: 0 <= i < FUSES ==>
          bits[i] == (old(bits[i]) && (ByteOf(i) < n ==> Bit(value, i)))
      {
        NextByte(v, value, 8 * n);
        WriteByte(n, v % 256);
        v := v / 256;
      }
      BytesInRange();
    }

    /** All fuses take the value's bits. */
    method SetAll(value: nat)
      requires Valid() && Shifted(value, FUSES) == 0
      modifies bits
      ensures forall i :: 0 <= i < FUSES ==> bits[i] == Bit(value, i)
    {
      hide Bit, Ones, Shifted;
      if value == Ones(FUSES) {
        forall k | 0 <= k < FUSES ensures Bit(value, k) {
          OneBit(FUSES, k);
        }
        EraseAll();
      } else if value == 0 {
        forall k: nat ensures !Bit(0, k) {
          ZeroBit(k);
        }
        WriteAll(0);
      } else {
        EraseAll();
        WriteAll(value);
      }
    }

    /** `flashcalw_read_gp_fuse_bitfield`, for the widths its shift is defined for: beyond fuse 63 it reads zeros. */
    method ReadBitfield(position: nat, width: nat) returns (value: nat)
      requires Valid() && width < FUSES
      ensures FieldRead(bits[..], position % FUSES, width, value)
    {
      var all := ReadAll();
      var pos := position % FUSES;
      value := Masked(Shifted(all, pos), width);
      hide Bit, Shifted, Masked;
      MaskedFits(Shifted(all, pos), width);
      forall k | 0 <= k < width ensures Bit(value, k) == (pos + k < FUSES && bits[pos + k]) {
        MaskedBit(Shifted(all, pos), width, k);
        ShiftedBit(all, pos, k);
        if pos + k >= FUSES {
          BeyondFits(all, FUSES, pos + k);
        }
      }
    }
  }

  lemma ParityIs(v: nat)
    ensures Bit(v, 0) == (v % 2 == 1)
  {
  }

  lemma AllOnes()
    ensures forall k :: 0 <= k < 8 ==> Bit(0xFF, k)
  {
    assert Ones(4) == 15 && Ones(8) == 255;
    forall k | 0 <= k < 8 ensures Bit(0xFF, k) {
      OneBit(8, k);
    }
  }

  lemma AllZeros()
    ensures forall k :: 0 <= k < 8 ==> !Bit(0, k)
  {
    forall k | 0 <= k < 8 ensures !Bit(0, k) {
      ZeroBit(k);
    }
  }

  /** A field that was set, and does not run past fuse 63, reads back as the value it was set to. */
  lemma FieldReadsBack(now: seq<bool>, was: seq<bool>, pos: nat, width: nat, value: nat, read: nat)
    requires FieldSet(now, was, pos, width, value) && pos + width <= FUSES && FieldRead(now, pos, width, read)
    ensures read == Masked(value, width)
  {
    MaskedFits(value, width);
    hide Bit, Shifted, Masked;
    forall k | 0 <= k < width ensures Bit(read, k) == Bit(Masked(value, width), k) {
      MaskedBit(value, width, k);
      assert FieldPlace(pos, k) == pos + k;
    }
    SameBits(read, Masked(value, width), width);
  }
}
