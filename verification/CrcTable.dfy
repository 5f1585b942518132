/** The 256-entry table shared by the Rust bootloader and the legacy `crc32.c`, sixteen entries a row,
    checked against eight shift/xor steps. */
module CrcTable {

  /** One shift/xor step of the reflected polynomial (section 8 of RFC 1952). */
  function ShiftXor(c: bv32): bv32 {
    if c & 1 == 1 then 0xEDB88320 ^ (c >> 1) else c >> 1
  }

  function EightShifts(c: bv32): bv32 {
    ShiftXor(ShiftXor(ShiftXor(ShiftXor(ShiftXor(ShiftXor(ShiftXor(ShiftXor(c))))))))
  }

  function Entry(v: bv8): bv32 {
    EightShifts(v as bv32)
  }

  const ROW_0: seq<bv32> := [
    0x00000000, 0x77073096, 0xee0e612c, 0x990951ba, 0x076dc419, 0x706af48f, 0xe963a535, 0x9e6495a3,
    0x0edb8832, 0x79dcb8a4, 0xe0d5e91e, 0x97d2d988, 0x09b64c2b, 0x7eb17cbd, 0xe7b82d07, 0x90bf1d91]
  const ROW_1: seq<bv32> := [
    0x1db71064, 0x6ab020f2, 0xf3b97148, 0x84be41de, 0x1adad47d, 0x6ddde4eb, 0xf4d4b551, 0x83d385c7,
    0x136c9856, 0x646ba8c0, 0xfd62f97a, 0x8a65c9ec, 0x14015c4f, 0x63066cd9, 0xfa0f3d63, 0x8d080df5]
  const ROW_2: seq<bv32> := [
    0x3b6e20c8, 0x4c69105e, 0xd56041e4, 0xa2677172, 0x3c03e4d1, 0x4b04d447, 0xd20d85fd, 0xa50ab56b,
    0x35b5a8fa, 0x42b2986c, 0xdbbbc9d6, 0xacbcf940, 0x32d86ce3, 0x45df5c75, 0xdcd60dcf, 0xabd13d59]
  const ROW_3: seq<bv32> := [
    0x26d930ac, 0x51de003a, 0xc8d75180, 0xbfd06116, 0x21b4f4b5, 0x56b3c423, 0xcfba9599, 0xb8bda50f,
    0x2802b89e, 0x5f058808, 0xc60cd9b2, 0xb10be924, 0x2f6f7c87, 0x58684c11, 0xc1611dab, 0xb6662d3d]
  const ROW_4: seq<bv32> := [
    0x76dc4190, 0x01db7106, 0x98d220bc, 0xefd5102a, 0x71b18589, 0x06b6b51f, 0x9fbfe4a5, 0xe8b8d433,
    0x7807c9a2, 0x0f00f934, 0x9609a88e, 0xe10e9818, 0x7f6a0dbb, 0x086d3d2d, 0x91646c97, 0xe6635c01]
  const ROW_5: seq<bv32> := [
    0x6b6b51f4, 0x1c6c6162, 0x856530d8, 0xf262004e, 0x6c0695ed, 0x1b01a57b, 0x8208f4c1, 0xf50fc457,
    0x65b0d9c6, 0x12b7e950, 0x8bbeb8ea, 0xfcb9887c, 0x62dd1ddf, 0x15da2d49, 0x8cd37cf3, 0xfbd44c65]
  const ROW_6: seq<bv32> := [
    0x4db26158, 0x3ab551ce, 0xa3bc0074, 0xd4bb30e2, 0x4adfa541, 0x3dd895d7, 0xa4d1c46d, 0xd3d6f4fb,
    0x4369e96a, 0x346ed9fc, 0xad678846, 0xda60b8d0, 0x44042d73, 0x33031de5, 0xaa0a4c5f, 0xdd0d7cc9]
  const ROW_7: seq<bv32> := [
    0x5005713c, 0x270241aa, 0xbe0b1010, 0xc90c2086, 0x5768b525, 0x206f85b3, 0xb966d409, 0xce61e49f,
    0x5edef90e, 0x29d9c998, 0xb0d09822, 0xc7d7a8b4, 0x59b33d17, 0x2eb40d81, 0xb7bd5c3b, 0xc0ba6cad]
  const ROW_8: seq<bv32> := [
    0xedb88320, 0x9abfb3b6, 0x03b6e20c, 0x74b1d29a, 0xead54739, 0x9dd277af, 0x04db2615, 0x73dc1683,
    0xe3630b12, 0x94643b84, 0x0d6d6a3e, 0x7a6a5aa8, 0xe40ecf0b, 0x9309ff9d, 0x0a00ae27, 0x7d079eb1]
  const ROW_9: seq<bv32> := [
    0xf00f9344, 0x8708a3d2, 0x1e01f268, 0x6906c2fe, 0xf762575d, 0x806567cb, 0x196c3671, 0x6e6b06e7,
    0xfed41b76, 0x89d32be0, 0x10da7a5a, 0x67dd4acc, 0xf9b9df6f, 0x8ebeeff9, 0x17b7be43, 0x60b08ed5]
  const ROW_A: seq<bv32> := [
    0xd6d6a3e8, 0xa1d1937e, 0x38d8c2c4, 0x4fdff252, 0xd1bb67f1, 0xa6bc5767, 0x3fb506dd, 0x48b2364b,
    0xd80d2bda, 0xaf0a1b4c, 0x36034af6, 0x41047a60, 0xdf60efc3, 0xa867df55, 0x316e8eef, 0x4669be79]
  const ROW_B: seq<bv32> := [
    0xcb61b38c, 0xbc66831a, 0x256fd2a0, 0x5268e236, 0xcc0c7795, 0xbb0b4703, 0x220216b9, 0x5505262f,
    0xc5ba3bbe, 0xb2bd0b28, 0x2bb45a92, 0x5cb36a04, 0xc2d7ffa7, 0xb5d0cf31, 0x2cd99e8b, 0x5bdeae1d]
  const ROW_C: seq<bv32> := [
    0x9b64c2b0, 0xec63f226, 0x756aa39c, 0x026d930a, 0x9c0906a9, 0xeb0e363f, 0x72076785, 0x05005713,
    0x95bf4a82, 0xe2b87a14, 0x7bb12bae, 0x0cb61b38, 0x92d28e9b, 0xe5d5be0d, 0x7cdcefb7, 0x0bdbdf21]
  const ROW_D: seq<bv32> := [
    0x86d3d2d4, 0xf1d4e242, 0x68ddb3f8, 0x1fda836e, 0x81be16cd, 0xf6b9265b, 0x6fb077e1, 0x18b74777,
    0x88085ae6, 0xff0f6a70, 0x66063bca, 0x11010b5c, 0x8f659eff, 0xf862ae69, 0x616bffd3, 0x166ccf45]
  const ROW_E: seq<bv32> := [
    0xa00ae278, 0xd70dd2ee, 0x4e048354, 0x3903b3c2, 0xa7672661, 0xd06016f7, 0x4969474d, 0x3e6e77db,
    0xaed16a4a, 0xd9d65adc, 0x40df0b66, 0x37d83bf0, 0xa9bcae53, 0xdebb9ec5, 0x47b2cf7f, 0x30b5ffe9]
  const ROW_F: seq<bv32> := [
    0xbdbdf21c, 0xcabac28a, 0x53b39330, 0x24b4a3a6, 0xbad03605, 0xcdd70693, 0x54de5729, 0x23d967bf,
    0xb3667a2e, 0xc4614ab8, 0x5d681b02, 0x2a6f2b94, 0xb40bbe37, 0xc30c8ea1, 0x5a05df1b, 0x2d02ef8d]

  const CRC32_TABLE: seq<seq<bv32>> := [
    ROW_0, ROW_1, ROW_2, ROW_3, ROW_4, ROW_5, ROW_6, ROW_7,
    ROW_8, ROW_9, ROW_A, ROW_B, ROW_C, ROW_D, ROW_E, ROW_F]

  function ColumnOf(v: bv8): (i: nat)
    ensures i < 16
  {
    (v & 15) as int
  }

  function RowNumber(v: bv8): (i: nat)
    ensures i < 16
  {
    (v >> 4) as int
  }

  /** Entry `v` of the table. */
  function TableEntry(v: bv8): bv32 {
    CRC32_TABLE[RowNumber(v)][ColumnOf(v)]
  }

  ghost function RowOf(f: bv8 -> bv32, b: bv8): (row: seq<bv32>)
    ensures |row| == 16
  {
    [f(b | 0), f(b | 1), f(b | 2), f(b | 3), f(b | 4), f(b | 5), f(b | 6), f(b | 7),
     f(b | 8), f(b | 9), f(b | 10), f(b | 11), f(b | 12), f(b | 13), f(b | 14), f(b | 15)]
  }

  lemma NibbleCases(c: bv8)
    requires c < 16
    ensures c in {0, 1, 2, 3, 4, 5, 6, 7, 8, 9, 10, 11, 12, 13, 14, 15}
  {
  }

  lemma RowLookup(f: bv8 -> bv32, row: seq<bv32>, base: bv8, v: bv8)
    requires row == RowOf(f, base) && v & 0xF0 == base
    ensures row[ColumnOf(v)] == f(v)
  {
    hide RowOf;
    assert v == base | (v & 15);
    RowAt(f, base, v & 15);
  }

  lemma RowAt(f: bv8 -> bv32, base: bv8, column: bv8)
    requires column < 16
    ensures RowOf(f, base)[column as int] == f(base | column)
  {
    NibbleCases(column);
  }

  lemma Row0Is()
    ensures ROW_0 == RowOf(Entry, 0x00)
  {
    assert ShiftXor(0) == 0;
  }

  lemma Row0(v: bv8)
    requires v & 0xF0 == 0x00
    ensures ROW_0[ColumnOf(v)] == Entry(v)
  {
    Row0Is();
    RowLookup(Entry, ROW_0, 0x00, v);
  }

  lemma Row1Is()
    ensures ROW_1 == RowOf(Entry, 0x10)
  {
  }

  lemma Row1(v: bv8)
    requires v & 0xF0 == 0x10
    ensures ROW_1[ColumnOf(v)] == Entry(v)
  {
    Row1Is();
    RowLookup(Entry, ROW_1, 0x10, v);
  }

  lemma Row2Is()
    ensures ROW_2 == RowOf(Entry, 0x20)
  {
  }

  lemma Row2(v: bv8)
    requires v & 0xF0 == 0x20
    ensures ROW_2[ColumnOf(v)] == Entry(v)
  {
    Row2Is();
    RowLookup(Entry, ROW_2, 0x20, v);
  }

  lemma Row3Is()
    ensures ROW_3 == RowOf(Entry, 0x30)
  {
  }

  lemma Row3(v: bv8)
    requires v & 0xF0 == 0x30
    ensures ROW_3[ColumnOf(v)] == Entry(v)
  {
    Row3Is();
    RowLookup(Entry, ROW_3, 0x30, v);
  }

  lemma Row4Is()
    ensures ROW_4 == RowOf(Entry, 0x40)
  {
  }

  lemma Row4(v: bv8)
    requires v & 0xF0 == 0x40
    ensures ROW_4[ColumnOf(v)] == Entry(v)
  {
    Row4Is();
    RowLookup(Entry, ROW_4, 0x40, v);
  }

  lemma Row5Is()
    ensures ROW_5 == RowOf(Entry, 0x50)
  {
  }

  lemma Row5(v: bv8)
    requires v & 0xF0 == 0x50
    ensures ROW_5[ColumnOf(v)] == Entry(v)
  {
    Row5Is();
    RowLookup(Entry, ROW_5, 0x50, v);
  }

  lemma Row6Is()
    ensures ROW_6 == RowOf(Entry, 0x60)
  {
  }

  lemma Row6(v: bv8)
    requires v & 0xF0 == 0x60
    ensures ROW_6[ColumnOf(v)] == Entry(v)
  {
    Row6Is();
    RowLookup(Entry, ROW_6, 0x60, v);
  }

  lemma Row7Is()
    ensures ROW_7 == RowOf(Entry, 0x70)
  {
  }

  lemma Row7(v: bv8)
    requires v & 0xF0 == 0x70
    ensures ROW_7[ColumnOf(v)] == Entry(v)
  {
    Row7Is();
    RowLookup(Entry, ROW_7, 0x70, v);
  }

  lemma Row8Is()
    ensures ROW_8 == RowOf(Entry, 0x80)
  {
  }

  lemma Row8(v: bv8)
    requires v & 0xF0 == 0x80
    ensures ROW_8[ColumnOf(v)] == Entry(v)
  {
    Row8Is();
    RowLookup(Entry, ROW_8, 0x80, v);
  }

  lemma Row9Is()
    ensures ROW_9 == RowOf(Entry, 0x90)
  {
  }

  lemma Row9(v: bv8)
    requires v & 0xF0 == 0x90
    ensures ROW_9[ColumnOf(v)] == Entry(v)
  {
    Row9Is();
    RowLookup(Entry, ROW_9, 0x90, v);
  }

  lemma RowAIs()
    ensures ROW_A == RowOf(Entry, 0xA0)
  {
  }

  lemma RowA(v: bv8)
    requires v & 0xF0 == 0xA0
    ensures ROW_A[ColumnOf(v)] == Entry(v)
  {
    RowAIs();
    RowLookup(Entry, ROW_A, 0xA0, v);
  }

  lemma RowBIs()
    ensures ROW_B == RowOf(Entry, 0xB0)
  {
  }

  lemma RowB(v: bv8)
    requires v & 0xF0 == 0xB0
    ensures ROW_B[ColumnOf(v)] == Entry(v)
  {
    RowBIs();
    RowLookup(Entry, ROW_B, 0xB0, v);
  }

  lemma RowCIs()
    ensures ROW_C == RowOf(Entry, 0xC0)
  {
  }

  lemma RowC(v: bv8)
    requires v & 0xF0 == 0xC0
    ensures ROW_C[ColumnOf(v)] == Entry(v)
  {
    RowCIs();
    RowLookup(Entry, ROW_C, 0xC0, v);
  }

  lemma RowDIs()
    ensures ROW_D == RowOf(Entry, 0xD0)
  {
  }

  lemma RowD(v: bv8)
    requires v & 0xF0 == 0xD0
    ensures ROW_D[ColumnOf(v)] == Entry(v)
  {
    RowDIs();
    RowLookup(Entry, ROW_D, 0xD0, v);
  }

  lemma RowEIs()
    ensures ROW_E == RowOf(Entry, 0xE0)
  {
  }

  lemma RowE(v: bv8)
    requires v & 0xF0 == 0xE0
    ensures ROW_E[ColumnOf(v)] == Entry(v)
  {
    RowEIs();
    RowLookup(Entry, ROW_E, 0xE0, v);
  }

  lemma RowFIs()
    ensures ROW_F == RowOf(Entry, 0xF0)
  {
  }

  lemma RowF(v: bv8)
    requires v & 0xF0 == 0xF0
    ensures ROW_F[ColumnOf(v)] == Entry(v)
  {
    RowFIs();
    RowLookup(Entry, ROW_F, 0xF0, v);
  }

  lemma RowNumberIs(v: bv8, row: bv8)
    requires row == v >> 4
    ensures row < 16 && v & 0xF0 == row << 4 && RowNumber(v) == row as int
  {
  }

  /** Every entry is eight shift/xor steps of its index. */
  lemma TableIsRight(v: bv8)
    ensures TableEntry(v) == Entry(v)
  {
    RowNumberIs(v, v >> 4);
    NibbleCases(v >> 4);
    match v >> 4 {
      case 0 => Row0(v);
      case 1 => Row1(v);
      case 2 => Row2(v);
      case 3 => Row3(v);
      case 4 => Row4(v);
      case 5 => Row5(v);
      case 6 => Row6(v);
      case 7 => Row7(v);
      case 8 => Row8(v);
      case 9 => Row9(v);
      case 10 => RowA(v);
      case 11 => RowB(v);
      case 12 => RowC(v);
      case 13 => RowD(v);
      case 14 => RowE(v);
      case _ => RowF(v);
    }
  }
}
