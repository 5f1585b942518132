/** Machine integers as ranges of `int`, little-endian packing, and flat byte memories. */
module Bytes {

  type u8 = x: int | 0 <= x < 0x100
  type u16 = x: int | 0 <= x < 0x1_0000
  type u32 = x: int | 0 <= x < 0x1_0000_0000

  datatype Option<+T> = None | Some(value: T)

  function Min(a: int, b: int): int {
    if a <= b then a else b
  }

  /** `LittleEndian::write_u16`, or `value as u8` followed by `(value >> 8) as u8`. */
  function LeU16(v: u16): (s: seq<u8>)
    ensures |s| == 2
  {
    [v % 256, v / 256]
  }

  function LeU32(v: u32): (s: seq<u8>)
    ensures |s| == 4
  {
    [v % 256, v / 256 % 256, v / 65536 % 256, v / 16777216]
  }

  /** `LittleEndian::read_u16` and `read_u32`. */
  function ReadU16(s: seq<u8>): u16
    requires |s| == 2
  {
    (s[0] as int) + 256 * (s[1] as int)
  }

  function ReadU32(s: seq<u8>): u32
    requires |s| == 4
  {
    (s[0] as int) + 256 * (s[1] as int) + 65536 * (s[2] as int) + 16777216 * (s[3] as int)
  }

  /** Two and four bytes in the midst of others as a number, least significant first. */
  function LittleHalf(p: seq<u8>, i: nat): u16
    requires i + 2 <= |p|
  {
    (p[i] as int) + 0x100 * (p[i + 1] as int)
  }

  function LittleWord(p: seq<u8>, i: nat): u32
    requires i + 4 <= |p|
  {
    (LittleHalf(p, i) as int) + 0x1_0000 * (LittleHalf(p, i + 2) as int)
  }

  lemma LeU16RoundTrip(v: u16, s: seq<u8>)
    requires |s| == 2
    ensures ReadU16(LeU16(v)) == v
    ensures LeU16(ReadU16(s)) == s
  {
  }

  lemma LeU32RoundTrip(v: u32, s: seq<u8>)
    requires |s| == 4
    ensures ReadU32(LeU32(v)) == v
    ensures LeU32(ReadU32(s)) == s
  {
    Digits(s[0], s[1], s[2], s[3]);
    assert v / 65536 == v / 256 / 256 && v / 16777216 == v / 65536 / 256;
  }

  lemma Digits(a: int, b: int, c: int, d: int)
    requires 0 <= a < 256 && 0 <= b < 256 && 0 <= c < 256 && 0 <= d < 256
    ensures var r := a + 256 * b + 65536 * c + 16777216 * d;
      r % 256 == a && r / 256 % 256 == b && r / 65536 % 256 == c && r / 16777216 == d
  {
    var r := a + 256 * b + 65536 * c + 16777216 * d;
    assert r / 256 == b + 256 * c + 65536 * d;
    assert r / 65536 == c + 256 * d;
    assert r / 16777216 == d;
  }

  /** `mem` with `data` stored at `at`. */
  function Splice(mem: seq<u8>, at: nat, data: seq<u8>): (r: seq<u8>)
    requires at + |data| <= |mem|
    ensures |r| == |mem|
    ensures forall i :: 0 <= i < |mem| ==> r[i] == if at <= i < at + |data| then data[i - at] else mem[i]
  {
    mem[..at] + data + mem[at + |data|..]
  }

  /** Outside `n` bytes at `at` the two agree. */
  predicate SameElsewhere(mem: seq<u8>, next: seq<u8>, at: nat, n: nat) {
    |next| == |mem| && forall a :: 0 <= a < |mem| && !(at <= a < at + n) ==> next[a] == mem[a]
  }

  /** `buffer` overwritten from the front by as much of `data` as fits. */
  function Overwritten(buffer: seq<u8>, data: seq<u8>): (r: seq<u8>)
    ensures |r| == |buffer|
  {
    var n := Min(|buffer|, |data|);
    data[..n] + buffer[n..]
  }

  lemma OverwrittenAt(buffer: seq<u8>, data: seq<u8>, k: nat)
    requires k < |buffer|
    ensures Overwritten(buffer, data)[k] == if k < |data| then data[k] else buffer[k]
  {
  }

  lemma OverwrittenFits(buffer: seq<u8>, data: seq<u8>)
    requires |data| <= |buffer|
    ensures Overwritten(buffer, data) == data + buffer[|data|..]
  {
    assert data[..|data|] == data;
  }

  lemma SpliceOfSplice(s: seq<u8>, start: nat, size: nat, at: nat, data: seq<u8>)
    requires start + size <= |s| && at + |data| <= size
    ensures Splice(s, start, Splice(s[start..start + size], at, data)) == Splice(s, start + at, data)
  {
  }

  lemma SpliceApart(mem: seq<u8>, at: nat, data: seq<u8>, from: nat, n: nat)
    requires at + |data| <= |mem| && from + n <= |mem|
    requires at + |data| <= from || from + n <= at
    ensures Splice(mem, at, data)[from..from + n] == mem[from..from + n]
  {
  }

  lemma SliceOfSlice(s: seq<u8>, start: nat, size: nat, at: nat, n: nat)
    requires start + size <= |s| && at + n <= size
    ensures s[start..start + size][at..at + n] == s[start + at..start + at + n]
  {
    var a, b := s[start..start + size][at..at + n], s[start + at..start + at + n];
    assert |a| == |b| && forall i :: 0 <= i < n ==> a[i] == b[i];
  }

  /** The middle of three parts. */
  lemma MiddleOf(a: seq<u8>, b: seq<u8>, c: seq<u8>)
    ensures (a + b + c)[|a|..|a| + |b|] == b
  {
  }

  lemma Reassociate(a: seq<u8>, b: seq<u8>, c: seq<u8>)
    ensures a + b + c == a + (b + c)
  {
  }

  /** Concatenation of a sequence of byte strings. */
  function Flatten(parts: seq<seq<u8>>): seq<u8> {
    if parts == [] then [] else parts[0] + Flatten(parts[1..])
  }

  lemma {:induction false} FlattenAppend(parts: seq<seq<u8>>, last: seq<u8>)
    ensures Flatten(parts + [last]) == Flatten(parts) + last
  {
    if parts == [] {
      assert Flatten([last]) == last + [];
    } else {
      assert (parts + [last])[1..] == parts[1..] + [last];
      FlattenAppend(parts[1..], last);
    }
  }
}
