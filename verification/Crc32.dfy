/** src/common/CPCrc.cpp: CRC-32 as in section 8 of RFC 1952, least significant bit first. */
module Crc32 {
  import opened BitStream

  const ROW_0: seq<bv32> := [
    0x00000000, 0x77073096, 0xee0e612c, 0x990951ba, 0x076dc419, 0x706af48f, 0xe963a535, 0x9e6495a3,
    0x0edb8832, 0x79dcb8a4, 0xe0d5e91e, 0x97d2d988, 0x09b64c2b, 0x7eb17cbd, 0xe7b82d07, 0x90bf1d91]
  const ROW_1: seq<bv32> := [
    0x1db71064, 0x6ab020f2, 0xf3b97148, 0x84be41de, 0x1adad47d, 0x6ddde4eb, 0xf4d4b551, 0x83d385c7,
    0x136c9856, 0x646ba8c0, 0xfd62f97a, 0x8a65c9ec, 0x14015c4f, 0x63066cd9, 0xfa0f3d63, 0x8d080df5]
  const ROW_2: seq<bv32> := [
    0x3b6e20c8, 0x4c69105e, 0xd56041e4, 0xa2677172, 0x3c03e4d1, 0x4b04d447, 0xd20d85fd, 0xa50ab56b,
    0x35b5a8fa, 0x42b2986c, 0xdbbbc9d6, 0xacbcf940, 0x32d86ce3, 0x45df5c75, 0xdcd60dcf, 0xabd13d59]
  const ROW_3: seq<bv32> := [
    0x26d930ac, 0x51de003a, 0xc8d75180, 0xbfd06116, 0x21b4f4b5, 0x56b3c423, 0xcfba9599, 0xb8bda50f,
    0x2802b89e, 0x5f058808, 0xc60cd9b2, 0xb10be924, 0x2f6f7c87, 0x58684c11, 0xc1611dab, 0xb6662d3d]
  const ROW_4: seq<bv32> := [
    0x76dc4190, 0x01db7106, 0x98d220bc, 0xefd5102a, 0x71b18589, 0x06b6b51f, 0x9fbfe4a5, 0xe8b8d433,
    0x7807c9a2, 0x0f00f934, 0x9609a88e, 0xe10e9818, 0x7f6a0dbb, 0x086d3d2d, 0x91646c97, 0xe6635c01]
  const ROW_5: seq<bv32> := [
    0x6b6b51f4, 0x1c6c6162, 0x856530d8, 0xf262004e, 0x6c0695ed, 0x1b01a57b, 0x8208f4c1, 0xf50fc457,
    0x65b0d9c6, 0x12b7e950, 0x8bbeb8ea, 0xfcb9887c, 0x62dd1ddf, 0x15da2d49, 0x8cd37cf3, 0xfbd44c65]
  const ROW_6: seq<bv32> := [
    0x4db26158, 0x3ab551ce, 0xa3bc0074, 0xd4bb30e2, 0x4adfa541, 0x3dd895d7, 0xa4d1c46d, 0xd3d6f4fb,
    0x4369e96a, 0x346ed9fc, 0xad678846, 0xda60b8d0, 0x44042d73, 0x33031de5, 0xaa0a4c5f, 0xdd0d7cc9]
  const ROW_7: seq<bv32> := [
    0x5005713c, 0x270241aa, 0xbe0b1010, 0xc90c2086, 0x5768b525, 0x206f85b3, 0xb966d409, 0xce61e49f,
    0x5edef90e, 0x29d9c998, 0xb0d09822, 0xc7d7a8b4, 0x59b33d17, 0x2eb40d81, 0xb7bd5c3b, 0xc0ba6cad]
  const ROW_8: seq<bv32> := [
    0xedb88320, 0x9abfb3b6, 0x03b6e20c, 0x74b1d29a, 0xead54739, 0x9dd277af, 0x04db2615, 0x73dc1683,
    0xe3630b12, 0x94643b84, 0x0d6d6a3e, 0x7a6a5aa8, 0xe40ecf0b, 0x9309ff9d, 0x0a00ae27, 0x7d079eb1]
  const ROW_9: seq<bv32> := [
    0xf00f9344, 0x8708a3d2, 0x1e01f268, 0x6906c2fe, 0xf762575d, 0x806567cb, 0x196c3671, 0x6e6b06e7,
    0xfed41b76, 0x89d32be0, 0x10da7a5a, 0x67dd4acc, 0xf9b9df6f, 0x8ebeeff9, 0x17b7be43, 0x60b08ed5]
  const ROW_A: seq<bv32> := [
    0xd6d6a3e8, 0xa1d1937e, 0x38d8c2c4, 0x4fdff252, 0xd1bb67f1, 0xa6bc5767, 0x3fb506dd, 0x48b2364b,
    0xd80d2bda, 0xaf0a1b4c, 0x36034af6, 0x41047a60, 0xdf60efc3, 0xa867df55, 0x316e8eef, 0x4669be79]
  const ROW_B: seq<bv32> := [
    0xcb61b38c, 0xbc66831a, 0x256fd2a0, 0x5268e236, 0xcc0c7795, 0xbb0b4703, 0x220216b9, 0x5505262f,
    0xc5ba3bbe, 0xb2bd0b28, 0x2bb45a92, 0x5cb36a04, 0xc2d7ffa7, 0xb5d0cf31, 0x2cd99e8b, 0x5bdeae1d]
  const ROW_C: seq<bv32> := [
    0x9b64c2b0, 0xec63f226, 0x756aa39c, 0x026d930a, 0x9c0906a9, 0xeb0e363f, 0x72076785, 0x05005713,
    0x95bf4a82, 0xe2b87a14, 0x7bb12bae, 0x0cb61b38, 0x92d28e9b, 0xe5d5be0d, 0x7cdcefb7, 0x0bdbdf21]
  const ROW_D: seq<bv32> := [
    0x86d3d2d4, 0xf1d4e242, 0x68ddb3f8, 0x1fda836e, 0x81be16cd, 0xf6b9265b, 0x6fb077e1, 0x18b74777,
    0x88085ae6, 0xff0f6a70, 0x66063bca, 0x11010b5c, 0x8f659eff, 0xf862ae69, 0x616bffd3, 0x166ccf45]
  const ROW_E: seq<bv32> := [
    0xa00ae278, 0xd70dd2ee, 0x4e048354, 0x3903b3c2, 0xa7672661, 0xd06016f7, 0x4969474d, 0x3e6e77db,
    0xaed16a4a, 0xd9d65adc, 0x40df0b66, 0x37d83bf0, 0xa9bcae53, 0xdebb9ec5, 0x47b2cf7f, 0x30b5ffe9]
  const ROW_F: seq<bv32> := [
    0xbdbdf21c, 0xcabac28a, 0x53b39330, 0x24b4a3a6, 0xbad03605, 0xcdd70693, 0x54de5729, 0x23d967bf,
    0xb3667a2e, 0xc4614ab8, 0x5d681b02, 0x2a6f2b94, 0xb40bbe37, 0xc30c8ea1, 0x5a05df1b, 0x2d02ef8d]

  /** Row k of the table: entries 16 * k to 16 * k + 15. */
  function Row(k: int): (r: seq<bv32>)
    ensures |r| == 16
  {
    if k == 0 then ROW_0 else if k == 1 then ROW_1 else if k == 2 then ROW_2 else if k == 3 then ROW_3
    else if k == 4 then ROW_4 else if k == 5 then ROW_5 else if k == 6 then ROW_6 else if k == 7 then ROW_7
    else if k == 8 then ROW_8 else if k == 9 then ROW_9 else if k == 10 then ROW_A else if k == 11 then ROW_B
    else if k == 12 then ROW_C else if k == 13 then ROW_D else if k == 14 then ROW_E else ROW_F
  }

  /** Entry i of the table. */
  function Table(i: bv8): bv32 {
    Row((i >> 4) as int)[(i & 0xf) as int]
  }

  /** One step of the division, mirrored: the register moves down. */
  function Shift(r: bv32): bv32 {
    if r & 1 != 0 then (r >> 1) ^ 0xedb8_8320 else r >> 1
  }

  /** The next bit of the message enters where the register is tested. */
  function Feed(r: bv32, b: bool): bv32 {
    Shift(if b then r ^ 1 else r)
  }

  /** Addition of polynomials over two elements. */
  function Plus(a: bv32, b: bv32): bv32 {
    a ^ b
  }

  function Move(r: bv32): bv32 {
    r >> 1
  }

  function Carry(r: bv32): bv32 {
    if Tested(r) then 0xedb8_8320 else 0
  }

  lemma MovePlus(a: bv32, b: bv32)
    ensures Move(Plus(a, b)) == Plus(Move(a), Move(b))
  {
  }

  predicate Tested(r: bv32) {
    r & 1 != 0
  }

  lemma TestedPlus(a: bv32, b: bv32)
    ensures Tested(Plus(a, b)) <==> Tested(a) != Tested(b)
  {
    assert (a ^ b) & 1 == (a & 1) ^ (b & 1);
  }

  lemma CarryPlus(a: bv32, b: bv32)
    ensures Carry(Plus(a, b)) == Plus(Carry(a), Carry(b))
  {
    hide Plus, Tested;
    TestedPlus(a, b);
    PlusZero(0xedb8_8320);
    PlusZero(0);
    PlusSame(0xedb8_8320);
  }

  lemma PlusAssoc(a: bv32, b: bv32, c: bv32)
    ensures Plus(Plus(a, b), c) == Plus(a, Plus(b, c))
  {
  }

  lemma PlusComm(a: bv32, b: bv32)
    ensures Plus(a, b) == Plus(b, a)
  {
  }

  lemma PlusZero(a: bv32)
    ensures Plus(a, 0) == a && Plus(0, a) == a
  {
  }

  lemma PlusSame(a: bv32)
    ensures Plus(a, a) == 0
  {
  }

  lemma PlusTells(a: bv32, b: bv32)
    ensures Plus(a, b) == 0 <==> a == b
  {
    hide Plus;
    PlusAssoc(a, b, b);
    PlusSame(b);
    PlusZero(a);
    PlusZero(b);
  }

  lemma Exchange(a: bv32, b: bv32, c: bv32, d: bv32)
    ensures Plus(Plus(a, b), Plus(c, d)) == Plus(Plus(a, c), Plus(b, d))
  {
    hide Plus;
    PlusAssoc(a, b, Plus(c, d));
    PlusAssoc(b, c, d);
    PlusComm(b, c);
    PlusAssoc(c, b, d);
    PlusAssoc(a, c, Plus(b, d));
  }

  lemma ShiftParts(r: bv32)
    ensures Shift(r) == Plus(Move(r), Carry(r))
  {
    hide Plus;
    if !Tested(r) {
      PlusZero(Move(r));
    } else {
      assert Shift(r) == (r >> 1) ^ 0xedb8_8320 == Plus(Move(r), 0xedb8_8320) by { Sum(Move(r), 0xedb8_8320); }
    }
  }

  lemma Sum(a: bv32, b: bv32)
    ensures Plus(a, b) == a ^ b
  {
  }

  /** A shift of a sum is the sum of the shifts. */
  lemma Linear(a: bv32, b: bv32)
    ensures Shift(Plus(a, b)) == Plus(Shift(a), Shift(b))
  {
    hide Move, Carry, Plus, Shift;
    ShiftParts(a);
    ShiftParts(b);
    ShiftParts(Plus(a, b));
    MovePlus(a, b);
    CarryPlus(a, b);
    Exchange(Move(a), Move(b), Carry(a), Carry(b));
  }

  function Shift8(r: bv32): bv32 {
    Shift(Shift(Shift(Shift(Shift(Shift(Shift(Shift(r))))))))
  }

  lemma Linear4(a: bv32, b: bv32)
    ensures Shift(Shift(Shift(Shift(Plus(a, b)))))
         == Plus(Shift(Shift(Shift(Shift(a)))), Shift(Shift(Shift(Shift(b)))))
  {
    hide Shift, Plus;
    Linear(a, b);
    Linear(Shift(a), Shift(b));
    Linear(Shift(Shift(a)), Shift(Shift(b)));
    Linear(Shift(Shift(Shift(a))), Shift(Shift(Shift(b))));
  }

  lemma Linear8(a: bv32, b: bv32)
    ensures Shift8(Plus(a, b)) == Plus(Shift8(a), Shift8(b))
  {
    hide Shift, Plus;
    Linear4(a, b);
    Linear4(Shift(Shift(Shift(Shift(a)))), Shift(Shift(Shift(Shift(b)))));
  }

  lemma ShiftZero(r: bv32)
    ensures Shift(r) == 0 <==> r == 0
  {
  }

  /** Different registers stay different. */
  lemma Injective(a: bv32, b: bv32)
    ensures Shift8(a) == Shift8(b) <==> a == b
  {
    hide Shift, Plus;
    Linear8(a, b);
    PlusTells(a, b);
    PlusTells(Shift8(a), Shift8(b));
    var r := Plus(a, b);
    ShiftZero(r);
    ShiftZero(Shift(r));
    ShiftZero(Shift(Shift(r)));
    ShiftZero(Shift(Shift(Shift(r))));
    ShiftZero(Shift(Shift(Shift(Shift(r)))));
    ShiftZero(Shift(Shift(Shift(Shift(Shift(r))))));
    ShiftZero(Shift(Shift(Shift(Shift(Shift(Shift(r)))))));
    ShiftZero(Shift(Shift(Shift(Shift(Shift(Shift(Shift(r))))))));
  }

  // ---- one byte at a time ---------------------------------------------------------------------------

  /** A byte of the message, in the bits of the register it meets. */
  function Load(d: bv8): bv32 {
    d as bv32
  }

  lemma ShiftByte(d: bv8)
    ensures Shift(Load(d)) == Plus(if d & 1 != 0 then 0xedb8_8320 else 0, Load(d >> 1))
  {
  }

  lemma ShiftTop()
    ensures Shift(1) == 0xedb8_8320
  {
  }

  lemma FedBit(r: bv32, b: bool)
    ensures Feed(r, b) == Plus(Shift(r), if b then 0xedb8_8320 else 0)
  {
    hide Shift, Plus;
    if b {
      Sum(r, 1);
      Linear(r, 1);
      ShiftTop();
    } else {
      PlusZero(Shift(r));
    }
  }

  lemma FeedStep(r: bv32, d: bv8)
    ensures Shift(Plus(r, Load(d))) == Plus(Feed(r, d & 1 != 0), Load(d >> 1))
  {
    hide Shift, Plus, Load;
    Linear(r, Load(d));
    ShiftByte(d);
    FedBit(r, d & 1 != 0);
    PlusAssoc(Shift(r), if d & 1 != 0 then 0xedb8_8320 else 0, Load(d >> 1));
  }

  lemma FeedFour(r: bv32, d: bv8, b: seq<bool>)
    requires |b| == 4 && b[0] == (d & 1 != 0) && b[1] == ((d >> 1) & 1 != 0)
    requires b[2] == ((d >> 2) & 1 != 0) && b[3] == ((d >> 3) & 1 != 0)
    ensures Shift(Shift(Shift(Shift(Plus(r, Load(d)))))) == Plus(Run(Feed, r, b), Load(d >> 4))
  {
    hide Shift, Plus, Load, Feed;
    RunFour(Feed, r, b);
    assert (d >> 1) >> 1 == d >> 2 && (d >> 2) >> 1 == d >> 3 && (d >> 3) >> 1 == d >> 4;
    FeedStep(r, d);
    FeedStep(Feed(r, b[0]), d >> 1);
    FeedStep(Feed(Feed(r, b[0]), b[1]), d >> 2);
    FeedStep(Feed(Feed(Feed(r, b[0]), b[1]), b[2]), d >> 3);
  }

  lemma ByteBits(d: bv8)
    ensures var b := Lsb(d);
      && b[0] == (d & 1 != 0) && b[1] == ((d >> 1) & 1 != 0)
      && b[2] == ((d >> 2) & 1 != 0) && b[3] == ((d >> 3) & 1 != 0)
      && b[4] == ((d >> 4) & 1 != 0) && b[5] == (((d >> 4) >> 1) & 1 != 0)
      && b[6] == (((d >> 4) >> 2) & 1 != 0) && b[7] == (((d >> 4) >> 3) & 1 != 0)
      && Load((d >> 4) >> 4) == 0
  {
  }

  /** Feeding the bits of a byte one by one is eight shifts of the register with the byte added. */
  lemma FeedByte(r: bv32, d: bv8)
    ensures Run(Feed, r, Lsb(d)) == Shift8(Plus(r, Load(d)))
  {
    hide Shift, Plus, Load, Feed, Run, Lsb;
    var b := Lsb(d);
    ByteBits(d);
    assert b == b[..4] + b[4..];
    RunAppend(Feed, r, b[..4], b[4..]);
    var half := Run(Feed, r, b[..4]);
    FeedFour(r, d, b[..4]);
    FeedFour(half, d >> 4, b[4..]);
    PlusZero(Run(Feed, half, b[4..]));
  }

  /** The register after a message, bit by bit. */
  function State(r: bv32, data: seq<bv8>): bv32 {
    Run(Feed, r, LsbFirst(data))
  }

  lemma StateStep(r: bv32, data: seq<bv8>, i: nat)
    requires i < |data|
    ensures State(r, data[..i + 1]) == Shift8(Plus(State(r, data[..i]), Load(data[i])))
  {
    hide Shift8, Plus, Load, Feed, Run, Lsb, LsbFirst;
    LsbStep(data, i);
    RunAppend(Feed, r, LsbFirst(data[..i]), Lsb(data[i]));
    FeedByte(State(r, data[..i]), data[i]);
  }

  // Each row is its first entry added to the first row, and these 31 entries are as the definition says.

  lemma Row0(c: int)
    requires 0 <= c < 16
    ensures ROW_0[c] == ROW_0[0] ^ ROW_0[c]
  {
  }

  lemma Row1(c: int)
    requires 0 <= c < 16
    ensures ROW_1[c] == ROW_1[0] ^ ROW_0[c]
  {
  }

  lemma Row2(c: int)
    requires 0 <= c < 16
    ensures ROW_2[c] == ROW_2[0] ^ ROW_0[c]
  {
  }

  lemma Row3(c: int)
    requires 0 <= c < 16
    ensures ROW_3[c] == ROW_3[0] ^ ROW_0[c]
  {
  }

  lemma Row4(c: int)
    requires 0 <= c < 16
    ensures ROW_4[c] == ROW_4[0] ^ ROW_0[c]
  {
  }

  lemma Row5(c: int)
    requires 0 <= c < 16
    ensures ROW_5[c] == ROW_5[0] ^ ROW_0[c]
  {
  }

  lemma Row6(c: int)
    requires 0 <= c < 16
    ensures ROW_6[c] == ROW_6[0] ^ ROW_0[c]
  {
  }

  lemma Row7(c: int)
    requires 0 <= c < 16
    ensures ROW_7[c] == ROW_7[0] ^ ROW_0[c]
  {
  }

  lemma Row8(c: int)
    requires 0 <= c < 16
    ensures ROW_8[c] == ROW_8[0] ^ ROW_0[c]
  {
  }

  lemma Row9(c: int)
    requires 0 <= c < 16
    ensures ROW_9[c] == ROW_9[0] ^ ROW_0[c]
  {
  }

  lemma RowA(c: int)
    requires 0 <= c < 16
    ensures ROW_A[c] == ROW_A[0] ^ ROW_0[c]
  {
  }

  lemma RowB(c: int)
    requires 0 <= c < 16
    ensures ROW_B[c] == ROW_B[0] ^ ROW_0[c]
  {
  }

  lemma RowC(c: int)
    requires 0 <= c < 16
    ensures ROW_C[c] == ROW_C[0] ^ ROW_0[c]
  {
  }

  lemma RowD(c: int)
    requires 0 <= c < 16
    ensures ROW_D[c] == ROW_D[0] ^ ROW_0[c]
  {
  }

  lemma RowE(c: int)
    requires 0 <= c < 16
    ensures ROW_E[c] == ROW_E[0] ^ ROW_0[c]
  {
  }

  lemma RowF(c: int)
    requires 0 <= c < 16
    ensures ROW_F[c] == ROW_F[0] ^ ROW_0[c]
  {
  }

  lemma FirstColumn()
    ensures ROW_0[0] == Shift8(0x00000000)
    ensures ROW_1[0] == Shift8(0x00000010)
    ensures ROW_2[0] == Shift8(0x00000020)
    ensures ROW_3[0] == Shift8(0x00000030)
    ensures ROW_4[0] == Shift8(0x00000040)
    ensures ROW_5[0] == Shift8(0x00000050)
    ensures ROW_6[0] == Shift8(0x00000060)
    ensures ROW_7[0] == Shift8(0x00000070)
    ensures ROW_8[0] == Shift8(0x00000080)
    ensures ROW_9[0] == Shift8(0x00000090)
    ensures ROW_A[0] == Shift8(0x000000a0)
    ensures ROW_B[0] == Shift8(0x000000b0)
    ensures ROW_C[0] == Shift8(0x000000c0)
    ensures ROW_D[0] == Shift8(0x000000d0)
    ensures ROW_E[0] == Shift8(0x000000e0)
    ensures ROW_F[0] == Shift8(0x000000f0)
  {
  }

  lemma FirstRow0()
    ensures ROW_0[0] == Shift8(0x00000000)
    ensures ROW_0[1] == Shift8(0x00000001)
    ensures ROW_0[2] == Shift8(0x00000002)
    ensures ROW_0[3] == Shift8(0x00000003)
  {
  }

  lemma FirstRow1()
    ensures ROW_0[4] == Shift8(0x00000004)
    ensures ROW_0[5] == Shift8(0x00000005)
    ensures ROW_0[6] == Shift8(0x00000006)
    ensures ROW_0[7] == Shift8(0x00000007)
  {
  }

  lemma FirstRow2()
    ensures ROW_0[8] == Shift8(0x00000008)
    ensures ROW_0[9] == Shift8(0x00000009)
    ensures ROW_0[10] == Shift8(0x0000000a)
    ensures ROW_0[11] == Shift8(0x0000000b)
  {
  }

  lemma FirstRow3()
    ensures ROW_0[12] == Shift8(0x0000000c)
    ensures ROW_0[13] == Shift8(0x0000000d)
    ensures ROW_0[14] == Shift8(0x0000000e)
    ensures ROW_0[15] == Shift8(0x0000000f)
  {
  }

  /** Every entry of the table is the register after eight shifts. */
  lemma EntryIs(i: bv8)
    ensures Table(i) == Shift8(Load(i))
  {
    hide Shift8, Plus, Load;
    Columns(i & 0xf);
    Heads(i >> 4);
    RowSplits((i >> 4) as int, (i & 0xf) as int);
    Nibbles(i);
    Linear8(Load(i & 0xf0), Load(i & 0xf));
  }

  lemma Nibbles(i: bv8)
    ensures Load(i) == Plus(Load(i & 0xf0), Load(i & 0xf)) && (i >> 4) << 4 == i & 0xf0
  {
    assert (i & 0xf0) | (i & 0xf) == i && (i & 0xf0) & (i & 0xf) == 0;
  }

  lemma Columns(l: bv8)
    requires l < 16
    ensures ROW_0[l as int] == Shift8(Load(l))
  {
    hide Shift8;
    FirstRow0();
    FirstRow1();
    FirstRow2();
    FirstRow3();
  }

  lemma Heads(h: bv8)
    requires h < 16
    ensures Row(h as int)[0] == Shift8(Load(h << 4))
  {
    hide Shift8;
    FirstColumn();
  }

  lemma RowSplits(k: int, c: int)
    requires 0 <= k < 16 && 0 <= c < 16
    ensures Row(k)[c] == Plus(Row(k)[0], ROW_0[c])
  {
    hide ROW_0, ROW_1, ROW_2, ROW_3, ROW_4, ROW_5, ROW_6, ROW_7, ROW_8, ROW_9, ROW_A, ROW_B, ROW_C, ROW_D, ROW_E, ROW_F;
    if k == 1 {
      Row1(c);
    } else if k == 2 {
      Row2(c);
    } else if k == 3 {
      Row3(c);
    } else if k == 4 {
      Row4(c);
    } else if k == 5 {
      Row5(c);
    } else if k == 6 {
      Row6(c);
    } else if k == 7 {
      Row7(c);
    } else if k == 8 {
      Row8(c);
    } else if k == 9 {
      Row9(c);
    } else if k == 10 {
      RowA(c);
    } else if k == 11 {
      RowB(c);
    } else if k == 12 {
      RowC(c);
    } else if k == 13 {
      RowD(c);
    } else if k == 14 {
      RowE(c);
    } else if k == 15 {
      RowF(c);
    } else {
      Row0(c);
    }
  }

  /** Bits that cannot reach the tested end within eight shifts only move. */
  lemma FarBits(r: bv32)
    requires r & 0xff == 0
    ensures Shift8(r) == r >> 8
  {
    hide Shift;
    FarFour(r);
    FarFour(r >> 4);
    assert (r >> 4) >> 4 == r >> 8;
  }

  lemma FarFour(r: bv32)
    requires r & 0xf == 0
    ensures Shift(Shift(Shift(Shift(r)))) == r >> 4
  {
  }

  /** The byte of the register that leaves it, met by the next byte of the message. */
  function Index(crc: bv32, d: bv8): bv8 {
    ((crc ^ (d as bv32)) & 0xff) as bv8
  }

  function Far(crc: bv32): bv32 {
    crc & 0xffff_ff00
  }

  function Passed(r: bv32): bv32 {
    r >> 8
  }

  lemma Split(crc: bv32, d: bv8)
    ensures Plus(crc, Load(d)) == Plus(Load(Index(crc, d)), Far(crc))
  {
    hide Plus, Load, Index, Far;
    NearAndFar(crc);
    NearMeets(crc, d);
    PlusAssoc(Near(crc), Far(crc), Load(d));
    PlusComm(Far(crc), Load(d));
    PlusAssoc(Near(crc), Load(d), Far(crc));
  }

  function Near(crc: bv32): bv32 {
    crc & 0xff
  }

  lemma NearAndFar(crc: bv32)
    ensures crc == Plus(Near(crc), Far(crc))
  {
  }

  lemma NearMeets(crc: bv32, d: bv8)
    ensures Load(Index(crc, d)) == Plus(Near(crc), Load(d))
  {
  }

  lemma FarPasses(crc: bv32)
    ensures Shift8(Far(crc)) == Passed(crc)
  {
    hide Shift8;
    FarBits(Far(crc));
  }

  /** One step of the table-driven loop is one byte of the division. */
  lemma TableStep(crc: bv32, d: bv8)
    ensures Plus(Table(Index(crc, d)), Passed(crc)) == Shift8(Plus(crc, Load(d)))
  {
    hide Shift8, Plus, Load, Index, Far, Passed, Table;
    Split(crc, d);
    EntryIs(Index(crc, d));
    FarPasses(crc);
    Linear8(Load(Index(crc, d)), Far(crc));
  }

  /** The register started with ones and complemented at the end. */
  function Checksum(data: seq<bv8>): bv32 {
    Not(State(0xffff_ffff, data))
  }

  method Crc32Of(data: array<bv8>) returns (crc: bv32)
    ensures crc == Checksum(data[..])
  {
    hide Shift8, Plus, Load, State, Table, Index, Passed;
    crc := 0xffff_ffff;
    assert State(0xffff_ffff, data[..0]) == 0xffff_ffff by { NothingFed(0xffff_ffff); assert data[..0] == []; }
    for offset := 0 to data.Length
      invariant crc == State(0xffff_ffff, data[..offset])
    {
      TableStep(crc, data[offset]);
      StateStep(0xffff_ffff, data[..], offset);
      assert data[..][..offset] == data[..offset] && data[..][..offset + 1] == data[..offset + 1];
      crc := Plus(Table(Index(crc, data[offset])), Passed(crc));
    }
    assert data[..data.Length] == data[..];
    crc := !crc;
  }

  lemma NothingFed(r: bv32)
    ensures State(r, []) == r
  {
  }

  lemma FeedOne(r: bv32, d: bv8)
    ensures State(r, [d]) == Shift8(Plus(r, Load(d)))
  {
    hide Shift8, Plus, Load, State;
    StateStep(r, [d], 0);
    NothingFed(r);
    assert [d][..0] == [] && [d][..1] == [d];
  }

  lemma {:induction false} StateAppend(r: bv32, a: seq<bv8>, b: seq<bv8>)
    ensures State(r, a + b) == State(State(r, a), b)
  {
    hide Shift8, Plus, Load, State;
    NothingFed(State(r, a));
    if b == [] {
      assert a + b == a;
    } else {
      var k := |b| - 1;
      var whole, rest := a + b, b[..k];
      assert whole[..|a| + k] == a + rest && whole[..|a| + k + 1] == whole && b[..k + 1] == b;
      StateAppend(r, a, rest);
      StateStep(r, whole, |a| + k);
      StateStep(State(r, a), b, k);
    }
  }

  // ---- error detection --------------------------------------------------------------------------------

  lemma Cancel(r: bv32, a: bv32, b: bv32)
    ensures Plus(r, a) == Plus(r, b) <==> a == b
  {
    hide Plus;
    PlusComm(r, a);
    PlusComm(r, b);
    PlusAssoc(a, r, r);
    PlusAssoc(b, r, r);
    PlusSame(r);
    PlusZero(a);
    PlusZero(b);
  }

  /** Registers that differ still differ after the same bytes. */
  lemma {:induction false} StaysDifferent(r: bv32, s: bv32, data: seq<bv8>)
    ensures State(r, data) == State(s, data) <==> r == s
  {
    hide Shift8, Plus, Load, State;
    NothingFed(r);
    NothingFed(s);
    if data != [] {
      var k := |data| - 1;
      var x, y, d := State(r, data[..k]), State(s, data[..k]), Load(data[k]);
      assert data[..k + 1] == data;
      StateStep(r, data, k);
      StateStep(s, data, k);
      StaysDifferent(r, s, data[..k]);
      Injective(Plus(x, d), Plus(y, d));
      PlusComm(x, d);
      PlusComm(y, d);
      Cancel(d, x, y);
    }
  }

  function Under(r: bv32): bv32 {
    r << 8
  }

  /** The bytes of a window side by side, as far as the register is wide. */
  function Side(w: seq<bv8>): bv32 {
    if w == [] then 0 else Plus(Load(w[0]), Under(Side(w[1..])))
  }

  /** The bits that n bytes side by side leave free. */
  function FreeBits(n: nat): bv32 {
    if n == 0 then 0xffff_ffff else if n == 1 then 0xffff_ff00
    else if n == 2 then 0xffff_0000 else if n == 3 then 0xff00_0000 else 0
  }

  predicate Fits(r: bv32, n: nat) {
    r & FreeBits(n) == 0
  }

  lemma {:induction false} SideFits(w: seq<bv8>)
    requires |w| <= 4
    ensures Fits(Side(w), |w|)
  {
    hide Plus, Fits, Load, Under;
    if w == [] {
      assert Fits(0, 0) by { NoneFits(); }
    } else {
      SideFits(w[1..]);
      SideStep(w[0], Side(w[1..]), |w|);
    }
  }

  lemma NoneFits()
    ensures Fits(0, 0)
  {
  }

  lemma SideStep(d: bv8, rest: bv32, n: nat)
    requires 0 < n <= 4 && Fits(rest, n - 1)
    ensures Fits(Plus(Load(d), Under(rest)), n)
  {
    if n == 1 { } else if n == 2 { } else if n == 3 { } else { }
  }

  function FirstByte(r: bv32): bv8 {
    (r & 0xff) as bv8
  }

  lemma FirstAndRest(d: bv8, rest: bv32, n: nat)
    requires n < 4 && Fits(rest, n)
    ensures FirstByte(Plus(Load(d), Under(rest))) == d && Passed(Plus(Load(d), Under(rest))) == rest
  {
    FitsTail(rest, n);
  }

  lemma FitsTail(rest: bv32, n: nat)
    requires n < 4 && Fits(rest, n)
    ensures rest & 0xff00_0000 == 0
  {
    if n == 0 { } else if n == 1 { } else if n == 2 { } else { }
  }

  lemma UnderPasses(rest: bv32, n: nat)
    requires n < 4 && Fits(rest, n)
    ensures Shift8(Under(rest)) == rest
  {
    hide Shift8, Fits;
    FitsTail(rest, n);
    FarBits(Under(rest));
  }

  lemma {:induction false} SideTells(v: seq<bv8>, w: seq<bv8>)
    requires |v| == |w| <= 4
    ensures Side(v) == Side(w) <==> v == w
  {
    hide Plus, Fits, Load, Under, FirstByte, Passed;
    if v != [] {
      SideFits(v[1..]);
      SideFits(w[1..]);
      SideTells(v[1..], w[1..]);
      FirstAndRest(v[0], Side(v[1..]), |v| - 1);
      FirstAndRest(w[0], Side(w[1..]), |v| - 1);
      assert v == [v[0]] + v[1..] && w == [w[0]] + w[1..];
    }
  }

  function Shifts(r: bv32, n: nat): bv32
    decreases n
  {
    if n == 0 then r else Shifts(Shift8(r), n - 1)
  }

  lemma {:induction false} ShiftsTell(r: bv32, s: bv32, n: nat)
    ensures Shifts(r, n) == Shifts(s, n) <==> r == s
    decreases n
  {
    hide Shift8;
    if n > 0 {
      ShiftsTell(Shift8(r), Shift8(s), n - 1);
      Injective(r, s);
    }
  }

  /** A window not wider than the register can be fed at once. */
  lemma {:induction false} WindowAtOnce(r: bv32, w: seq<bv8>)
    requires |w| <= 4
    ensures State(r, w) == Shifts(Plus(r, Side(w)), |w|)
    decreases |w|
  {
    hide Shift8, Plus, Load, State, Fits, Under;
    if w == [] {
      NothingFed(r);
      PlusZero(r);
    } else {
      var rest, far := w[1..], Under(Side(w[1..]));
      assert w == [w[0]] + rest;
      StateAppend(r, [w[0]], rest);
      FeedOne(r, w[0]);
      WindowAtOnce(State(r, [w[0]]), rest);
      SideFits(rest);
      UnderPasses(Side(rest), |rest|);
      Linear8(Plus(r, Load(w[0])), far);
      PlusAssoc(r, Load(w[0]), far);
    }
  }

  /** Two messages of the same length that differ only within a window of 4 bytes never have the same
      checksum; a single byte is such a window. */
  lemma BurstDetected(before: seq<bv8>, v: seq<bv8>, w: seq<bv8>, after: seq<bv8>)
    requires |v| == |w| <= 4
    ensures Checksum(before + v + after) == Checksum(before + w + after) <==> v == w
  {
    hide Shift8, Plus, Load, State, Side, Shifts, Not;
    StateAppend(0xffff_ffff, before + v, after);
    StateAppend(0xffff_ffff, before + w, after);
    StateAppend(0xffff_ffff, before, v);
    StateAppend(0xffff_ffff, before, w);
    var r := State(0xffff_ffff, before);
    StaysDifferent(State(r, v), State(r, w), after);
    WindowAtOnce(r, v);
    WindowAtOnce(r, w);
    ShiftsTell(Plus(r, Side(v)), Plus(r, Side(w)), |v|);
    Cancel(r, Side(v), Side(w));
    SideTells(v, w);
    Complement(State(State(r, v), after), State(State(r, w), after));
  }

  function Not(r: bv32): bv32 {
    !r
  }

  lemma NotNot(r: bv32)
    ensures Not(Not(r)) == r
  {
  }

  lemma Complement(a: bv32, b: bv32)
    ensures Not(a) == Not(b) <==> a == b
  {
    hide Not;
    NotNot(a);
    NotNot(b);
  }
}
