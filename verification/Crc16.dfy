/** src/common/CPCrc.cpp: CRC-16 as in section 4.5 of the SD Physical Layer specification: x^16 + x^12 + x^5 + 1. */
module Crc16 {
  import opened BitStream

  const ROW_0: seq<bv16> := [
    0x0000, 0x1021, 0x2042, 0x3063, 0x4084, 0x50a5, 0x60c6, 0x70e7,
    0x8108, 0x9129, 0xa14a, 0xb16b, 0xc18c, 0xd1ad, 0xe1ce, 0xf1ef]
  const ROW_1: seq<bv16> := [
    0x1231, 0x0210, 0x3273, 0x2252, 0x52b5, 0x4294, 0x72f7, 0x62d6,
    0x9339, 0x8318, 0xb37b, 0xa35a, 0xd3bd, 0xc39c, 0xf3ff, 0xe3de]
  const ROW_2: seq<bv16> := [
    0x2462, 0x3443, 0x0420, 0x1401, 0x64e6, 0x74c7, 0x44a4, 0x5485,
    0xa56a, 0xb54b, 0x8528, 0x9509, 0xe5ee, 0xf5cf, 0xc5ac, 0xd58d]
  const ROW_3: seq<bv16> := [
    0x3653, 0x2672, 0x1611, 0x0630, 0x76d7, 0x66f6, 0x5695, 0x46b4,
    0xb75b, 0xa77a, 0x9719, 0x8738, 0xf7df, 0xe7fe, 0xd79d, 0xc7bc]
  const ROW_4: seq<bv16> := [
    0x48c4, 0x58e5, 0x6886, 0x78a7, 0x0840, 0x1861, 0x2802, 0x3823,
    0xc9cc, 0xd9ed, 0xe98e, 0xf9af, 0x8948, 0x9969, 0xa90a, 0xb92b]
  const ROW_5: seq<bv16> := [
    0x5af5, 0x4ad4, 0x7ab7, 0x6a96, 0x1a71, 0x0a50, 0x3a33, 0x2a12,
    0xdbfd, 0xcbdc, 0xfbbf, 0xeb9e, 0x9b79, 0x8b58, 0xbb3b, 0xab1a]
  const ROW_6: seq<bv16> := [
    0x6ca6, 0x7c87, 0x4ce4, 0x5cc5, 0x2c22, 0x3c03, 0x0c60, 0x1c41,
    0xedae, 0xfd8f, 0xcdec, 0xddcd, 0xad2a, 0xbd0b, 0x8d68, 0x9d49]
  const ROW_7: seq<bv16> := [
    0x7e97, 0x6eb6, 0x5ed5, 0x4ef4, 0x3e13, 0x2e32, 0x1e51, 0x0e70,
    0xff9f, 0xefbe, 0xdfdd, 0xcffc, 0xbf1b, 0xaf3a, 0x9f59, 0x8f78]
  const ROW_8: seq<bv16> := [
    0x9188, 0x81a9, 0xb1ca, 0xa1eb, 0xd10c, 0xc12d, 0xf14e, 0xe16f,
    0x1080, 0x00a1, 0x30c2, 0x20e3, 0x5004, 0x4025, 0x7046, 0x6067]
  const ROW_9: seq<bv16> := [
    0x83b9, 0x9398, 0xa3fb, 0xb3da, 0xc33d, 0xd31c, 0xe37f, 0xf35e,
    0x02b1, 0x1290, 0x22f3, 0x32d2, 0x4235, 0x5214, 0x6277, 0x7256]
  const ROW_A: seq<bv16> := [
    0xb5ea, 0xa5cb, 0x95a8, 0x8589, 0xf56e, 0xe54f, 0xd52c, 0xc50d,
    0x34e2, 0x24c3, 0x14a0, 0x0481, 0x7466, 0x6447, 0x5424, 0x4405]
  const ROW_B: seq<bv16> := [
    0xa7db, 0xb7fa, 0x8799, 0x97b8, 0xe75f, 0xf77e, 0xc71d, 0xd73c,
    0x26d3, 0x36f2, 0x0691, 0x16b0, 0x6657, 0x7676, 0x4615, 0x5634]
  const ROW_C: seq<bv16> := [
    0xd94c, 0xc96d, 0xf90e, 0xe92f, 0x99c8, 0x89e9, 0xb98a, 0xa9ab,
    0x5844, 0x4865, 0x7806, 0x6827, 0x18c0, 0x08e1, 0x3882, 0x28a3]
  const ROW_D: seq<bv16> := [
    0xcb7d, 0xdb5c, 0xeb3f, 0xfb1e, 0x8bf9, 0x9bd8, 0xabbb, 0xbb9a,
    0x4a75, 0x5a54, 0x6a37, 0x7a16, 0x0af1, 0x1ad0, 0x2ab3, 0x3a92]
  const ROW_E: seq<bv16> := [
    0xfd2e, 0xed0f, 0xdd6c, 0xcd4d, 0xbdaa, 0xad8b, 0x9de8, 0x8dc9,
    0x7c26, 0x6c07, 0x5c64, 0x4c45, 0x3ca2, 0x2c83, 0x1ce0, 0x0cc1]
  const ROW_F: seq<bv16> := [
    0xef1f, 0xff3e, 0xcf5d, 0xdf7c, 0xaf9b, 0xbfba, 0x8fd9, 0x9ff8,
    0x6e17, 0x7e36, 0x4e55, 0x5e74, 0x2e93, 0x3eb2, 0x0ed1, 0x1ef0]

  /** Row k of the table: entries 16 * k to 16 * k + 15. */
  function Row(k: int): (r: seq<bv16>)
    ensures |r| == 16
  {
    if k == 0 then ROW_0 else if k == 1 then ROW_1 else if k == 2 then ROW_2 else if k == 3 then ROW_3
    else if k == 4 then ROW_4 else if k == 5 then ROW_5 else if k == 6 then ROW_6 else if k == 7 then ROW_7
    else if k == 8 then ROW_8 else if k == 9 then ROW_9 else if k == 10 then ROW_A else if k == 11 then ROW_B
    else if k == 12 then ROW_C else if k == 13 then ROW_D else if k == 14 then ROW_E else ROW_F
  }

  /** Entry i of the table. */
  function Table(i: bv8): bv16 {
    Row((i >> 4) as int)[(i & 0xf) as int]
  }

  /** One step of the division: the register moves up, and the polynomial is taken off a carried one. */
  function Shift(r: bv16): bv16 {
    if r & 0x8000 != 0 then (r << 1) ^ 0x1021 else r << 1
  }

  /** The next bit of the message enters where the register is tested. */
  function Feed(r: bv16, b: bool): bv16 {
    Shift(if b then r ^ 0x8000 else r)
  }

  /** Addition of polynomials over two elements. */
  function Plus(a: bv16, b: bv16): bv16 {
    a ^ b
  }

  function Move(r: bv16): bv16 {
    r << 1
  }

  function Carry(r: bv16): bv16 {
    if Tested(r) then 0x1021 else 0
  }

  lemma MovePlus(a: bv16, b: bv16)
    ensures Move(Plus(a, b)) == Plus(Move(a), Move(b))
  {
  }

  predicate Tested(r: bv16) {
    r & 0x8000 != 0
  }

  lemma TestedPlus(a: bv16, b: bv16)
    ensures Tested(Plus(a, b)) <==> Tested(a) != Tested(b)
  {
    assert (a ^ b) & 0x8000 == (a & 0x8000) ^ (b & 0x8000);
  }

  lemma CarryPlus(a: bv16, b: bv16)
    ensures Carry(Plus(a, b)) == Plus(Carry(a), Carry(b))
  {
    hide Plus, Tested;
    TestedPlus(a, b);
    PlusZero(0x1021);
    PlusZero(0);
    PlusSame(0x1021);
  }

  lemma PlusAssoc(a: bv16, b: bv16, c: bv16)
    ensures Plus(Plus(a, b), c) == Plus(a, Plus(b, c))
  {
  }

  lemma PlusComm(a: bv16, b: bv16)
    ensures Plus(a, b) == Plus(b, a)
  {
  }

  lemma PlusZero(a: bv16)
    ensures Plus(a, 0) == a && Plus(0, a) == a
  {
  }

  lemma PlusSame(a: bv16)
    ensures Plus(a, a) == 0
  {
  }

  lemma PlusTells(a: bv16, b: bv16)
    ensures Plus(a, b) == 0 <==> a == b
  {
    hide Plus;
    PlusAssoc(a, b, b);
    PlusSame(b);
    PlusZero(a);
    PlusZero(b);
  }

  lemma Exchange(a: bv16, b: bv16, c: bv16, d: bv16)
    ensures Plus(Plus(a, b), Plus(c, d)) == Plus(Plus(a, c), Plus(b, d))
  {
    hide Plus;
    PlusAssoc(a, b, Plus(c, d));
    PlusAssoc(b, c, d);
    PlusComm(b, c);
    PlusAssoc(c, b, d);
    PlusAssoc(a, c, Plus(b, d));
  }

  lemma ShiftParts(r: bv16)
    ensures Shift(r) == Plus(Move(r), Carry(r))
  {
    hide Plus;
    if !Tested(r) {
      PlusZero(Move(r));
    } else {
      assert Shift(r) == (r << 1) ^ 0x1021 == Plus(Move(r), 0x1021) by { Sum(Move(r), 0x1021); }
    }
  }

  lemma Sum(a: bv16, b: bv16)
    ensures Plus(a, b) == a ^ b
  {
  }

  /** A shift of a sum is the sum of the shifts. */
  lemma Linear(a: bv16, b: bv16)
    ensures Shift(Plus(a, b)) == Plus(Shift(a), Shift(b))
  {
    hide Move, Carry, Plus, Shift;
    ShiftParts(a);
    ShiftParts(b);
    ShiftParts(Plus(a, b));
    MovePlus(a, b);
    CarryPlus(a, b);
    Exchange(Move(a), Move(b), Carry(a), Carry(b));
  }

  function Shift8(r: bv16): bv16 {
    Shift(Shift(Shift(Shift(Shift(Shift(Shift(Shift(r))))))))
  }

  lemma Linear4(a: bv16, b: bv16)
    ensures Shift(Shift(Shift(Shift(Plus(a, b)))))
         == Plus(Shift(Shift(Shift(Shift(a)))), Shift(Shift(Shift(Shift(b)))))
  {
    hide Shift, Plus;
    Linear(a, b);
    Linear(Shift(a), Shift(b));
    Linear(Shift(Shift(a)), Shift(Shift(b)));
    Linear(Shift(Shift(Shift(a))), Shift(Shift(Shift(b))));
  }

  lemma Linear8(a: bv16, b: bv16)
    ensures Shift8(Plus(a, b)) == Plus(Shift8(a), Shift8(b))
  {
    hide Shift, Plus;
    Linear4(a, b);
    Linear4(Shift(Shift(Shift(Shift(a)))), Shift(Shift(Shift(Shift(b)))));
  }

  lemma ShiftZero(r: bv16)
    ensures Shift(r) == 0 <==> r == 0
  {
  }

  /** Different registers stay different. */
  lemma Injective(a: bv16, b: bv16)
    ensures Shift8(a) == Shift8(b) <==> a == b
  {
    hide Shift, Plus;
    Linear8(a, b);
    PlusTells(a, b);
    PlusTells(Shift8(a), Shift8(b));
    var r := Plus(a, b);
    ShiftZero(r);
    ShiftZero(Shift(r));
    ShiftZero(Shift(Shift(r)));
    ShiftZero(Shift(Shift(Shift(r))));
    ShiftZero(Shift(Shift(Shift(Shift(r)))));
    ShiftZero(Shift(Shift(Shift(Shift(Shift(r))))));
    ShiftZero(Shift(Shift(Shift(Shift(Shift(Shift(r)))))));
    ShiftZero(Shift(Shift(Shift(Shift(Shift(Shift(Shift(r))))))));
  }

  // ---- one byte at a time ---------------------------------------------------------------------------

  /** A byte of the message, in the bits of the register it meets. */
  function Load(d: bv8): bv16 {
    (d as bv16) << 8
  }

  lemma ShiftByte(d: bv8)
    ensures Shift(Load(d)) == Plus(if d & 0x80 != 0 then 0x1021 else 0, Load(d << 1))
  {
  }

  lemma ShiftTop()
    ensures Shift(0x8000) == 0x1021
  {
  }

  lemma FedBit(r: bv16, b: bool)
    ensures Feed(r, b) == Plus(Shift(r), if b then 0x1021 else 0)
  {
    hide Shift, Plus;
    if b {
      Sum(r, 0x8000);
      Linear(r, 0x8000);
      ShiftTop();
    } else {
      PlusZero(Shift(r));
    }
  }

  lemma FeedStep(r: bv16, d: bv8)
    ensures Shift(Plus(r, Load(d))) == Plus(Feed(r, d & 0x80 != 0), Load(d << 1))
  {
    hide Shift, Plus, Load;
    Linear(r, Load(d));
    ShiftByte(d);
    FedBit(r, d & 0x80 != 0);
    PlusAssoc(Shift(r), if d & 0x80 != 0 then 0x1021 else 0, Load(d << 1));
  }

  lemma FeedFour(r: bv16, d: bv8, b: seq<bool>)
    requires |b| == 4 && b[0] == (d & 0x80 != 0) && b[1] == ((d << 1) & 0x80 != 0)
    requires b[2] == ((d << 2) & 0x80 != 0) && b[3] == ((d << 3) & 0x80 != 0)
    ensures Shift(Shift(Shift(Shift(Plus(r, Load(d)))))) == Plus(Run(Feed, r, b), Load(d << 4))
  {
    hide Shift, Plus, Load, Feed;
    RunFour(Feed, r, b);
    assert (d << 1) << 1 == d << 2 && (d << 2) << 1 == d << 3 && (d << 3) << 1 == d << 4;
    FeedStep(r, d);
    FeedStep(Feed(r, b[0]), d << 1);
    FeedStep(Feed(Feed(r, b[0]), b[1]), d << 2);
    FeedStep(Feed(Feed(Feed(r, b[0]), b[1]), b[2]), d << 3);
  }

  lemma ByteBits(d: bv8)
    ensures var b := Msb(d);
      && b[0] == (d & 0x80 != 0) && b[1] == ((d << 1) & 0x80 != 0)
      && b[2] == ((d << 2) & 0x80 != 0) && b[3] == ((d << 3) & 0x80 != 0)
      && b[4] == ((d << 4) & 0x80 != 0) && b[5] == (((d << 4) << 1) & 0x80 != 0)
      && b[6] == (((d << 4) << 2) & 0x80 != 0) && b[7] == (((d << 4) << 3) & 0x80 != 0)
      && Load((d << 4) << 4) == 0
  {
  }

  /** Feeding the bits of a byte one by one is eight shifts of the register with the byte added. */
  lemma FeedByte(r: bv16, d: bv8)
    ensures Run(Feed, r, Msb(d)) == Shift8(Plus(r, Load(d)))
  {
    hide Shift, Plus, Load, Feed, Run, Msb;
    var b := Msb(d);
    ByteBits(d);
    assert b == b[..4] + b[4..];
    RunAppend(Feed, r, b[..4], b[4..]);
    var half := Run(Feed, r, b[..4]);
    FeedFour(r, d, b[..4]);
    FeedFour(half, d << 4, b[4..]);
    PlusZero(Run(Feed, half, b[4..]));
  }

  /** The register after a message, bit by bit. */
  function State(r: bv16, data: seq<bv8>): bv16 {
    Run(Feed, r, MsbFirst(data))
  }

  lemma StateStep(r: bv16, data: seq<bv8>, i: nat)
    requires i < |data|
    ensures State(r, data[..i + 1]) == Shift8(Plus(State(r, data[..i]), Load(data[i])))
  {
    hide Shift8, Plus, Load, Feed, Run, Msb, MsbFirst;
    MsbStep(data, i);
    RunAppend(Feed, r, MsbFirst(data[..i]), Msb(data[i]));
    FeedByte(State(r, data[..i]), data[i]);
  }

  // Each row is its first entry added to the first row, and these 31 entries are as the definition says.

  lemma Row0(c: int)
    requires 0 <= c < 16
    ensures ROW_0[c] == ROW_0[0] ^ ROW_0[c]
  {
  }

  lemma Row1(c: int)
    requires 0 <= c < 16
    ensures ROW_1[c] == ROW_1[0] ^ ROW_0[c]
  {
  }

  lemma Row2(c: int)
    requires 0 <= c < 16
    ensures ROW_2[c] == ROW_2[0] ^ ROW_0[c]
  {
  }

  lemma Row3(c: int)
    requires 0 <= c < 16
    ensures ROW_3[c] == ROW_3[0] ^ ROW_0[c]
  {
  }

  lemma Row4(c: int)
    requires 0 <= c < 16
    ensures ROW_4[c] == ROW_4[0] ^ ROW_0[c]
  {
  }

  lemma Row5(c: int)
    requires 0 <= c < 16
    ensures ROW_5[c] == ROW_5[0] ^ ROW_0[c]
  {
  }

  lemma Row6(c: int)
    requires 0 <= c < 16
    ensures ROW_6[c] == ROW_6[0] ^ ROW_0[c]
  {
  }

  lemma Row7(c: int)
    requires 0 <= c < 16
    ensures ROW_7[c] == ROW_7[0] ^ ROW_0[c]
  {
  }

  lemma Row8(c: int)
    requires 0 <= c < 16
    ensures ROW_8[c] == ROW_8[0] ^ ROW_0[c]
  {
  }

  lemma Row9(c: int)
    requires 0 <= c < 16
    ensures ROW_9[c] == ROW_9[0] ^ ROW_0[c]
  {
  }

  lemma RowA(c: int)
    requires 0 <= c < 16
    ensures ROW_A[c] == ROW_A[0] ^ ROW_0[c]
  {
  }

  lemma RowB(c: int)
    requires 0 <= c < 16
    ensures ROW_B[c] == ROW_B[0] ^ ROW_0[c]
  {
  }

  lemma RowC(c: int)
    requires 0 <= c < 16
    ensures ROW_C[c] == ROW_C[0] ^ ROW_0[c]
  {
  }

  lemma RowD(c: int)
    requires 0 <= c < 16
    ensures ROW_D[c] == ROW_D[0] ^ ROW_0[c]
  {
  }

  lemma RowE(c: int)
    requires 0 <= c < 16
    ensures ROW_E[c] == ROW_E[0] ^ ROW_0[c]
  {
  }

  lemma RowF(c: int)
    requires 0 <= c < 16
    ensures ROW_F[c] == ROW_F[0] ^ ROW_0[c]
  {
  }

  lemma FirstColumn()
    ensures ROW_0[0] == Shift8(0x0000)
    ensures ROW_1[0] == Shift8(0x1000)
    ensures ROW_2[0] == Shift8(0x2000)
    ensures ROW_3[0] == Shift8(0x3000)
    ensures ROW_4[0] == Shift8(0x4000)
    ensures ROW_5[0] == Shift8(0x5000)
    ensures ROW_6[0] == Shift8(0x6000)
    ensures ROW_7[0] == Shift8(0x7000)
    ensures ROW_8[0] == Shift8(0x8000)
    ensures ROW_9[0] == Shift8(0x9000)
    ensures ROW_A[0] == Shift8(0xa000)
    ensures ROW_B[0] == Shift8(0xb000)
    ensures ROW_C[0] == Shift8(0xc000)
    ensures ROW_D[0] == Shift8(0xd000)
    ensures ROW_E[0] == Shift8(0xe000)
    ensures ROW_F[0] == Shift8(0xf000)
  {
  }

  lemma FirstRow0()
    ensures ROW_0[0] == Shift8(0x0000)
    ensures ROW_0[1] == Shift8(0x0100)
    ensures ROW_0[2] == Shift8(0x0200)
    ensures ROW_0[3] == Shift8(0x0300)
  {
  }

  lemma FirstRow1()
    ensures ROW_0[4] == Shift8(0x0400)
    ensures ROW_0[5] == Shift8(0x0500)
    ensures ROW_0[6] == Shift8(0x0600)
    ensures ROW_0[7] == Shift8(0x0700)
  {
  }

  lemma FirstRow2()
    ensures ROW_0[8] == Shift8(0x0800)
    ensures ROW_0[9] == Shift8(0x0900)
    ensures ROW_0[10] == Shift8(0x0a00)
    ensures ROW_0[11] == Shift8(0x0b00)
  {
  }

  lemma FirstRow3()
    ensures ROW_0[12] == Shift8(0x0c00)
    ensures ROW_0[13] == Shift8(0x0d00)
    ensures ROW_0[14] == Shift8(0x0e00)
    ensures ROW_0[15] == Shift8(0x0f00)
  {
  }

  /** Every entry of the table is the register after eight shifts. */
  lemma EntryIs(i: bv8)
    ensures Table(i) == Shift8(Load(i))
  {
    hide Shift8, Plus, Load;
    Columns(i & 0xf);
    Heads(i >> 4);
    RowSplits((i >> 4) as int, (i & 0xf) as int);
    Nibbles(i);
    Linear8(Load(i & 0xf0), Load(i & 0xf));
  }

  lemma Nibbles(i: bv8)
    ensures Load(i) == Plus(Load(i & 0xf0), Load(i & 0xf)) && (i >> 4) << 4 == i & 0xf0
  {
    assert (i & 0xf0) | (i & 0xf) == i && (i & 0xf0) & (i & 0xf) == 0;
  }

  lemma Columns(l: bv8)
    requires l < 16
    ensures ROW_0[l as int] == Shift8(Load(l))
  {
    hide Shift8;
    FirstRow0();
    FirstRow1();
    FirstRow2();
    FirstRow3();
  }

  lemma Heads(h: bv8)
    requires h < 16
    ensures Row(h as int)[0] == Shift8(Load(h << 4))
  {
    hide Shift8;
    FirstColumn();
  }

  lemma RowSplits(k: int, c: int)
    requires 0 <= k < 16 && 0 <= c < 16
    ensures Row(k)[c] == Plus(Row(k)[0], ROW_0[c])
  {
    hide ROW_0, ROW_1, ROW_2, ROW_3, ROW_4, ROW_5, ROW_6, ROW_7, ROW_8, ROW_9, ROW_A, ROW_B, ROW_C, ROW_D, ROW_E, ROW_F;
    if k == 1 {
      Row1(c);
    } else if k == 2 {
      Row2(c);
    } else if k == 3 {
      Row3(c);
    } else if k == 4 {
      Row4(c);
    } else if k == 5 {
      Row5(c);
    } else if k == 6 {
      Row6(c);
    } else if k == 7 {
      Row7(c);
    } else if k == 8 {
      Row8(c);
    } else if k == 9 {
      Row9(c);
    } else if k == 10 {
      RowA(c);
    } else if k == 11 {
      RowB(c);
    } else if k == 12 {
      RowC(c);
    } else if k == 13 {
      RowD(c);
    } else if k == 14 {
      RowE(c);
    } else if k == 15 {
      RowF(c);
    } else {
      Row0(c);
    }
  }

  /** Bits that cannot reach the tested end within eight shifts only move. */
  lemma FarBits(r: bv16)
    requires r & 0xff00 == 0
    ensures Shift8(r) == r << 8
  {
    hide Shift;
    FarFour(r);
    FarFour(r << 4);
    assert (r << 4) << 4 == r << 8;
  }

  lemma FarFour(r: bv16)
    requires r & 0xf000 == 0
    ensures Shift(Shift(Shift(Shift(r)))) == r << 4
  {
  }

  /** The byte of the register that leaves it, met by the next byte of the message. */
  function Index(crc: bv16, d: bv8): bv8 {
    (((crc >> 8) ^ (d as bv16)) & 0xff) as bv8
  }

  function Far(crc: bv16): bv16 {
    crc & 0xff
  }

  function Passed(r: bv16): bv16 {
    r << 8
  }

  lemma Split(crc: bv16, d: bv8)
    ensures Plus(crc, Load(d)) == Plus(Load(Index(crc, d)), Far(crc))
  {
    hide Plus, Load, Index, Far;
    NearAndFar(crc);
    NearMeets(crc, d);
    PlusAssoc(Near(crc), Far(crc), Load(d));
    PlusComm(Far(crc), Load(d));
    PlusAssoc(Near(crc), Load(d), Far(crc));
  }

  function Near(crc: bv16): bv16 {
    crc & 0xff00
  }

  lemma NearAndFar(crc: bv16)
    ensures crc == Plus(Near(crc), Far(crc))
  {
  }

  lemma NearMeets(crc: bv16, d: bv8)
    ensures Load(Index(crc, d)) == Plus(Near(crc), Load(d))
  {
  }

  lemma FarPasses(crc: bv16)
    ensures Shift8(Far(crc)) == Passed(crc)
  {
    hide Shift8;
    FarBits(Far(crc));
  }

  /** One step of the table-driven loop is one byte of the division. */
  lemma TableStep(crc: bv16, d: bv8)
    ensures Plus(Table(Index(crc, d)), Passed(crc)) == Shift8(Plus(crc, Load(d)))
  {
    hide Shift8, Plus, Load, Index, Far, Passed, Table;
    Split(crc, d);
    EntryIs(Index(crc, d));
    FarPasses(crc);
    Linear8(Load(Index(crc, d)), Far(crc));
  }

  /** The remainder of the message. */
  function Remainder(data: seq<bv8>): bv16 {
    State(0, data)
  }

  method SdCrc16(data: array<bv8>) returns (crc: bv16)
    ensures crc == Remainder(data[..])
  {
    hide Shift8, Plus, Load, State, Table, Index, Passed;
    crc := 0;
    assert State(0, data[..0]) == 0 by { NothingFed(0); assert data[..0] == []; }
    for offset := 0 to data.Length
      invariant crc == State(0, data[..offset])
    {
      TableStep(crc, data[offset]);
      StateStep(0, data[..], offset);
      assert data[..][..offset] == data[..offset] && data[..][..offset + 1] == data[..offset + 1];
      crc := Plus(Table(Index(crc, data[offset])), Passed(crc));
    }
    assert data[..data.Length] == data[..];
  }

  lemma NothingFed(r: bv16)
    ensures State(r, []) == r
  {
  }

  lemma FeedOne(r: bv16, d: bv8)
    ensures State(r, [d]) == Shift8(Plus(r, Load(d)))
  {
    hide Shift8, Plus, Load, State;
    StateStep(r, [d], 0);
    NothingFed(r);
    assert [d][..0] == [] && [d][..1] == [d];
  }

  lemma {:induction false} StateAppend(r: bv16, a: seq<bv8>, b: seq<bv8>)
    ensures State(r, a + b) == State(State(r, a), b)
  {
    hide Shift8, Plus, Load, State;
    NothingFed(State(r, a));
    if b == [] {
      assert a + b == a;
    } else {
      var k := |b| - 1;
      var whole, rest := a + b, b[..k];
      assert whole[..|a| + k] == a + rest && whole[..|a| + k + 1] == whole && b[..k + 1] == b;
      StateAppend(r, a, rest);
      StateStep(r, whole, |a| + k);
      StateStep(State(r, a), b, k);
    }
  }

  // ---- error detection --------------------------------------------------------------------------------

  lemma Cancel(r: bv16, a: bv16, b: bv16)
    ensures Plus(r, a) == Plus(r, b) <==> a == b
  {
    hide Plus;
    PlusComm(r, a);
    PlusComm(r, b);
    PlusAssoc(a, r, r);
    PlusAssoc(b, r, r);
    PlusSame(r);
    PlusZero(a);
    PlusZero(b);
  }

  /** Registers that differ still differ after the same bytes. */
  lemma {:induction false} StaysDifferent(r: bv16, s: bv16, data: seq<bv8>)
    ensures State(r, data) == State(s, data) <==> r == s
  {
    hide Shift8, Plus, Load, State;
    NothingFed(r);
    NothingFed(s);
    if data != [] {
      var k := |data| - 1;
      var x, y, d := State(r, data[..k]), State(s, data[..k]), Load(data[k]);
      assert data[..k + 1] == data;
      StateStep(r, data, k);
      StateStep(s, data, k);
      StaysDifferent(r, s, data[..k]);
      Injective(Plus(x, d), Plus(y, d));
      PlusComm(x, d);
      PlusComm(y, d);
      Cancel(d, x, y);
    }
  }

  function Under(r: bv16): bv16 {
    r >> 8
  }

  /** The bytes of a window side by side, as far as the register is wide. */
  function Side(w: seq<bv8>): bv16 {
    if w == [] then 0 else Plus(Load(w[0]), Under(Side(w[1..])))
  }

  /** The bits that n bytes side by side leave free. */
  function FreeBits(n: nat): bv16 {
    if n == 0 then 0xffff else if n == 1 then 0x00ff else 0
  }

  predicate Fits(r: bv16, n: nat) {
    r & FreeBits(n) == 0
  }

  lemma {:induction false} SideFits(w: seq<bv8>)
    requires |w| <= 2
    ensures Fits(Side(w), |w|)
  {
    hide Plus, Fits, Load, Under;
    if w == [] {
      assert Fits(0, 0) by { NoneFits(); }
    } else {
      SideFits(w[1..]);
      SideStep(w[0], Side(w[1..]), |w|);
    }
  }

  lemma NoneFits()
    ensures Fits(0, 0)
  {
  }

  lemma SideStep(d: bv8, rest: bv16, n: nat)
    requires 0 < n <= 2 && Fits(rest, n - 1)
    ensures Fits(Plus(Load(d), Under(rest)), n)
  {
    assert n == 1 || n == 2;
  }

  function FirstByte(r: bv16): bv8 {
    (r >> 8) as bv8
  }

  lemma FirstAndRest(d: bv8, rest: bv16, n: nat)
    requires n < 2 && Fits(rest, n)
    ensures FirstByte(Plus(Load(d), Under(rest))) == d && Passed(Plus(Load(d), Under(rest))) == rest
  {
    FitsTail(rest, n);
  }

  lemma FitsTail(rest: bv16, n: nat)
    requires n < 2 && Fits(rest, n)
    ensures rest & 0xff == 0
  {
    assert n == 0 || n == 1;
  }

  lemma UnderPasses(rest: bv16, n: nat)
    requires n < 2 && Fits(rest, n)
    ensures Shift8(Under(rest)) == rest
  {
    hide Shift8, Fits;
    FitsTail(rest, n);
    FarBits(Under(rest));
  }

  lemma {:induction false} SideTells(v: seq<bv8>, w: seq<bv8>)
    requires |v| == |w| <= 2
    ensures Side(v) == Side(w) <==> v == w
  {
    hide Plus, Fits, Load, Under, FirstByte, Passed;
    if v != [] {
      SideFits(v[1..]);
      SideFits(w[1..]);
      SideTells(v[1..], w[1..]);
      FirstAndRest(v[0], Side(v[1..]), |v| - 1);
      FirstAndRest(w[0], Side(w[1..]), |v| - 1);
      assert v == [v[0]] + v[1..] && w == [w[0]] + w[1..];
    }
  }

  function Shifts(r: bv16, n: nat): bv16
    decreases n
  {
    if n == 0 then r else Shifts(Shift8(r), n - 1)
  }

  lemma {:induction false} ShiftsTell(r: bv16, s: bv16, n: nat)
    ensures Shifts(r, n) == Shifts(s, n) <==> r == s
    decreases n
  {
    hide Shift8;
    if n > 0 {
      ShiftsTell(Shift8(r), Shift8(s), n - 1);
      Injective(r, s);
    }
  }

  /** A window not wider than the register can be fed at once. */
  lemma {:induction false} WindowAtOnce(r: bv16, w: seq<bv8>)
    requires |w| <= 2
    ensures State(r, w) == Shifts(Plus(r, Side(w)), |w|)
    decreases |w|
  {
    hide Shift8, Plus, Load, State, Fits, Under;
    if w == [] {
      NothingFed(r);
      PlusZero(r);
    } else {
      var rest, far := w[1..], Under(Side(w[1..]));
      assert w == [w[0]] + rest;
      StateAppend(r, [w[0]], rest);
      FeedOne(r, w[0]);
      WindowAtOnce(State(r, [w[0]]), rest);
      SideFits(rest);
      UnderPasses(Side(rest), |rest|);
      Linear8(Plus(r, Load(w[0])), far);
      PlusAssoc(r, Load(w[0]), far);
    }
  }

  /** Two messages of the same length that differ only within a window of 2 bytes never have the same
      checksum; a single byte is such a window. */
  lemma BurstDetected(before: seq<bv8>, v: seq<bv8>, w: seq<bv8>, after: seq<bv8>)
    requires |v| == |w| <= 2
    ensures Remainder(before + v + after) == Remainder(before + w + after) <==> v == w
  {
    hide Shift8, Plus, Load, State, Side, Shifts;
    StateAppend(0, before + v, after);
    StateAppend(0, before + w, after);
    StateAppend(0, before, v);
    StateAppend(0, before, w);
    var r := State(0, before);
    StaysDifferent(State(r, v), State(r, w), after);
    WindowAtOnce(r, v);
    WindowAtOnce(r, w);
    ShiftsTell(Plus(r, Side(v)), Plus(r, Side(w)), |v|);
    Cancel(r, Side(v), Side(w));
    SideTells(v, w);
  }

  /** A message followed by its own checksum leaves nothing over. */
  lemma ChecksumCancels(data: seq<bv8>)
    ensures Remainder(data + [(Remainder(data) >> 8) as bv8, (Remainder(data) & 0xff) as bv8]) == 0
  {
    hide Shift8, Plus, Load, State;
    var r := Remainder(data);
    var w := [(r >> 8) as bv8, (r & 0xff) as bv8];
    StateAppend(0, data, w);
    WindowAtOnce(r, w);
    OwnBytes(r);
    PlusSame(r);
    ZeroStays(2);
  }

  lemma OwnBytes(r: bv16)
    ensures Side([(r >> 8) as bv8, (r & 0xff) as bv8]) == r
  {
    hide Plus, Load, Under;
    var hi, lo := (r >> 8) as bv8, (r & 0xff) as bv8;
    assert [hi, lo][1..] == [lo] && [lo][1..] == [];
    assert Side([lo]) == Plus(Load(lo), Under(0));
    TwoBytes(r);
    PlusZero(Load(lo));
  }

  lemma TwoBytes(r: bv16)
    ensures Plus(Load((r >> 8) as bv8), Under(Load((r & 0xff) as bv8))) == r && Under(0) == 0
  {
  }

  lemma {:induction false} ZeroStays(n: nat)
    ensures Shifts(0, n) == 0
  {
    hide Shift;
    if n > 0 {
      ShiftZero(0);
      ZeroStays(n - 1);
    }
  }
}
