/** src/common/CPCrc.cpp: CRC-7 as in section 4.5 of the SD Physical Layer specification: x^7 + x^3 + 1. */
module Crc7 {
  import opened BitStream

  const ROW_0: seq<bv8> := [
    0x00, 0x09, 0x12, 0x1b, 0x24, 0x2d, 0x36, 0x3f, 0x48, 0x41, 0x5a, 0x53, 0x6c, 0x65, 0x7e, 0x77]
  const ROW_1: seq<bv8> := [
    0x19, 0x10, 0x0b, 0x02, 0x3d, 0x34, 0x2f, 0x26, 0x51, 0x58, 0x43, 0x4a, 0x75, 0x7c, 0x67, 0x6e]
  const ROW_2: seq<bv8> := [
    0x32, 0x3b, 0x20, 0x29, 0x16, 0x1f, 0x04, 0x0d, 0x7a, 0x73, 0x68, 0x61, 0x5e, 0x57, 0x4c, 0x45]
  const ROW_3: seq<bv8> := [
    0x2b, 0x22, 0x39, 0x30, 0x0f, 0x06, 0x1d, 0x14, 0x63, 0x6a, 0x71, 0x78, 0x47, 0x4e, 0x55, 0x5c]
  const ROW_4: seq<bv8> := [
    0x64, 0x6d, 0x76, 0x7f, 0x40, 0x49, 0x52, 0x5b, 0x2c, 0x25, 0x3e, 0x37, 0x08, 0x01, 0x1a, 0x13]
  const ROW_5: seq<bv8> := [
    0x7d, 0x74, 0x6f, 0x66, 0x59, 0x50, 0x4b, 0x42, 0x35, 0x3c, 0x27, 0x2e, 0x11, 0x18, 0x03, 0x0a]
  const ROW_6: seq<bv8> := [
    0x56, 0x5f, 0x44, 0x4d, 0x72, 0x7b, 0x60, 0x69, 0x1e, 0x17, 0x0c, 0x05, 0x3a, 0x33, 0x28, 0x21]
  const ROW_7: seq<bv8> := [
    0x4f, 0x46, 0x5d, 0x54, 0x6b, 0x62, 0x79, 0x70, 0x07, 0x0e, 0x15, 0x1c, 0x23, 0x2a, 0x31, 0x38]
  const ROW_8: seq<bv8> := [
    0x41, 0x48, 0x53, 0x5a, 0x65, 0x6c, 0x77, 0x7e, 0x09, 0x00, 0x1b, 0x12, 0x2d, 0x24, 0x3f, 0x36]
  const ROW_9: seq<bv8> := [
    0x58, 0x51, 0x4a, 0x43, 0x7c, 0x75, 0x6e, 0x67, 0x10, 0x19, 0x02, 0x0b, 0x34, 0x3d, 0x26, 0x2f]
  const ROW_A: seq<bv8> := [
    0x73, 0x7a, 0x61, 0x68, 0x57, 0x5e, 0x45, 0x4c, 0x3b, 0x32, 0x29, 0x20, 0x1f, 0x16, 0x0d, 0x04]
  const ROW_B: seq<bv8> := [
    0x6a, 0x63, 0x78, 0x71, 0x4e, 0x47, 0x5c, 0x55, 0x22, 0x2b, 0x30, 0x39, 0x06, 0x0f, 0x14, 0x1d]
  const ROW_C: seq<bv8> := [
    0x25, 0x2c, 0x37, 0x3e, 0x01, 0x08, 0x13, 0x1a, 0x6d, 0x64, 0x7f, 0x76, 0x49, 0x40, 0x5b, 0x52]
  const ROW_D: seq<bv8> := [
    0x3c, 0x35, 0x2e, 0x27, 0x18, 0x11, 0x0a, 0x03, 0x74, 0x7d, 0x66, 0x6f, 0x50, 0x59, 0x42, 0x4b]
  const ROW_E: seq<bv8> := [
    0x17, 0x1e, 0x05, 0x0c, 0x33, 0x3a, 0x21, 0x28, 0x5f, 0x56, 0x4d, 0x44, 0x7b, 0x72, 0x69, 0x60]
  const ROW_F: seq<bv8> := [
    0x0e, 0x07, 0x1c, 0x15, 0x2a, 0x23, 0x38, 0x31, 0x46, 0x4f, 0x54, 0x5d, 0x62, 0x6b, 0x70, 0x79]

  /** Row k of the table: entries 16 * k to 16 * k + 15. */
  function Row(k: int): (r: seq<bv8>)
    ensures |r| == 16
  {
    if k == 0 then ROW_0 else if k == 1 then ROW_1 else if k == 2 then ROW_2 else if k == 3 then ROW_3
    else if k == 4 then ROW_4 else if k == 5 then ROW_5 else if k == 6 then ROW_6 else if k == 7 then ROW_7
    else if k == 8 then ROW_8 else if k == 9 then ROW_9 else if k == 10 then ROW_A else if k == 11 then ROW_B
    else if k == 12 then ROW_C else if k == 13 then ROW_D else if k == 14 then ROW_E else ROW_F
  }

  /** Entry i of the table. */
  function Table(i: bv8): bv8 {
    Row((i >> 4) as int)[(i & 0xf) as int]
  }

  /** One step of the division; the register of seven bits stands in the upper bits of a byte. */
  function Shift(r: bv8): bv8 {
    if r & 0x80 != 0 then (r << 1) ^ 0x12 else r << 1
  }

  /** The seven bits of the register. */
  function Seven(r: bv8): bv8 {
    r >> 1
  }

  /** The next bit of the message enters at the top. */
  function Feed(r: bv8, b: bool): bv8 {
    Shift(if b then r ^ 0x80 else r)
  }

  /** Addition of polynomials over two elements. */
  function Plus(a: bv8, b: bv8): bv8 {
    a ^ b
  }

  function Move(r: bv8): bv8 {
    r << 1
  }

  function Carry(r: bv8): bv8 {
    if Tested(r) then 0x12 else 0
  }

  lemma MovePlus(a: bv8, b: bv8)
    ensures Move(Plus(a, b)) == Plus(Move(a), Move(b))
  {
  }

  predicate Tested(r: bv8) {
    r & 0x80 != 0
  }

  lemma TestedPlus(a: bv8, b: bv8)
    ensures Tested(Plus(a, b)) <==> Tested(a) != Tested(b)
  {
    assert (a ^ b) & 0x80 == (a & 0x80) ^ (b & 0x80);
  }

  lemma CarryPlus(a: bv8, b: bv8)
    ensures Carry(Plus(a, b)) == Plus(Carry(a), Carry(b))
  {
    hide Plus, Tested;
    TestedPlus(a, b);
    PlusZero(0x12);
    PlusZero(0);
    PlusSame(0x12);
  }

  lemma PlusAssoc(a: bv8, b: bv8, c: bv8)
    ensures Plus(Plus(a, b), c) == Plus(a, Plus(b, c))
  {
  }

  lemma PlusComm(a: bv8, b: bv8)
    ensures Plus(a, b) == Plus(b, a)
  {
  }

  lemma PlusZero(a: bv8)
    ensures Plus(a, 0) == a && Plus(0, a) == a
  {
  }

  lemma PlusSame(a: bv8)
    ensures Plus(a, a) == 0
  {
  }

  lemma PlusTells(a: bv8, b: bv8)
    ensures Plus(a, b) == 0 <==> a == b
  {
    hide Plus;
    PlusAssoc(a, b, b);
    PlusSame(b);
    PlusZero(a);
    PlusZero(b);
  }

  lemma Exchange(a: bv8, b: bv8, c: bv8, d: bv8)
    ensures Plus(Plus(a, b), Plus(c, d)) == Plus(Plus(a, c), Plus(b, d))
  {
    hide Plus;
    PlusAssoc(a, b, Plus(c, d));
    PlusAssoc(b, c, d);
    PlusComm(b, c);
    PlusAssoc(c, b, d);
    PlusAssoc(a, c, Plus(b, d));
  }

  lemma ShiftParts(r: bv8)
    ensures Shift(r) == Plus(Move(r), Carry(r))
  {
    hide Plus;
    if !Tested(r) {
      PlusZero(Move(r));
    } else {
      assert Shift(r) == (r << 1) ^ 0x12 == Plus(Move(r), 0x12) by { Sum(Move(r), 0x12); }
    }
  }

  lemma Sum(a: bv8, b: bv8)
    ensures Plus(a, b) == a ^ b
  {
  }

  /** A shift of a sum is the sum of the shifts. */
  lemma Linear(a: bv8, b: bv8)
    ensures Shift(Plus(a, b)) == Plus(Shift(a), Shift(b))
  {
    hide Move, Carry, Plus, Shift;
    ShiftParts(a);
    ShiftParts(b);
    ShiftParts(Plus(a, b));
    MovePlus(a, b);
    CarryPlus(a, b);
    Exchange(Move(a), Move(b), Carry(a), Carry(b));
  }

  function Shift8(r: bv8): bv8 {
    Shift(Shift(Shift(Shift(Shift(Shift(Shift(Shift(r))))))))
  }

  lemma Linear4(a: bv8, b: bv8)
    ensures Shift(Shift(Shift(Shift(Plus(a, b)))))
         == Plus(Shift(Shift(Shift(Shift(a)))), Shift(Shift(Shift(Shift(b)))))
  {
    hide Shift, Plus;
    Linear(a, b);
    Linear(Shift(a), Shift(b));
    Linear(Shift(Shift(a)), Shift(Shift(b)));
    Linear(Shift(Shift(Shift(a))), Shift(Shift(Shift(b))));
  }

  lemma Linear8(a: bv8, b: bv8)
    ensures Shift8(Plus(a, b)) == Plus(Shift8(a), Shift8(b))
  {
    hide Shift, Plus;
    Linear4(a, b);
    Linear4(Shift(Shift(Shift(Shift(a)))), Shift(Shift(Shift(Shift(b)))));
  }

  // ---- one byte at a time ---------------------------------------------------------------------------

  /** A byte of the message, in the bits of the register it meets. */
  function Load(d: bv8): bv8 {
    d
  }

  lemma ShiftByte(d: bv8)
    ensures Shift(Load(d)) == Plus(if d & 0x80 != 0 then 0x12 else 0, Load(d << 1))
  {
  }

  lemma ShiftTop()
    ensures Shift(0x80) == 0x12
  {
  }

  lemma FedBit(r: bv8, b: bool)
    ensures Feed(r, b) == Plus(Shift(r), if b then 0x12 else 0)
  {
    hide Shift, Plus;
    if b {
      Sum(r, 0x80);
      Linear(r, 0x80);
      ShiftTop();
    } else {
      PlusZero(Shift(r));
    }
  }

  lemma FeedStep(r: bv8, d: bv8)
    ensures Shift(Plus(r, Load(d))) == Plus(Feed(r, d & 0x80 != 0), Load(d << 1))
  {
    hide Shift, Plus, Load;
    Linear(r, Load(d));
    ShiftByte(d);
    FedBit(r, d & 0x80 != 0);
    PlusAssoc(Shift(r), if d & 0x80 != 0 then 0x12 else 0, Load(d << 1));
  }

  lemma FeedFour(r: bv8, d: bv8, b: seq<bool>)
    requires |b| == 4 && b[0] == (d & 0x80 != 0) && b[1] == ((d << 1) & 0x80 != 0)
    requires b[2] == ((d << 2) & 0x80 != 0) && b[3] == ((d << 3) & 0x80 != 0)
    ensures Shift(Shift(Shift(Shift(Plus(r, Load(d)))))) == Plus(Run(Feed, r, b), Load(d << 4))
  {
    hide Shift, Plus, Load, Feed;
    RunFour(Feed, r, b);
    assert (d << 1) << 1 == d << 2 && (d << 2) << 1 == d << 3 && (d << 3) << 1 == d << 4;
    FeedStep(r, d);
    FeedStep(Feed(r, b[0]), d << 1);
    FeedStep(Feed(Feed(r, b[0]), b[1]), d << 2);
    FeedStep(Feed(Feed(Feed(r, b[0]), b[1]), b[2]), d << 3);
  }

  lemma ByteBits(d: bv8)
    ensures var b := Msb(d);
      && b[0] == (d & 0x80 != 0) && b[1] == ((d << 1) & 0x80 != 0)
      && b[2] == ((d << 2) & 0x80 != 0) && b[3] == ((d << 3) & 0x80 != 0)
      && b[4] == ((d << 4) & 0x80 != 0) && b[5] == (((d << 4) << 1) & 0x80 != 0)
      && b[6] == (((d << 4) << 2) & 0x80 != 0) && b[7] == (((d << 4) << 3) & 0x80 != 0)
      && Load((d << 4) << 4) == 0
  {
  }

  /** Feeding the bits of a byte one by one is eight shifts of the register with the byte added. */
  lemma FeedByte(r: bv8, d: bv8)
    ensures Run(Feed, r, Msb(d)) == Shift8(Plus(r, Load(d)))
  {
    hide Shift, Plus, Load, Feed, Run, Msb;
    var b := Msb(d);
    ByteBits(d);
    assert b == b[..4] + b[4..];
    RunAppend(Feed, r, b[..4], b[4..]);
    var half := Run(Feed, r, b[..4]);
    FeedFour(r, d, b[..4]);
    FeedFour(half, d << 4, b[4..]);
    PlusZero(Run(Feed, half, b[4..]));
  }

  /** The register after a message, bit by bit. */
  function State(r: bv8, data: seq<bv8>): bv8 {
    Run(Feed, r, MsbFirst(data))
  }

  lemma StateStep(r: bv8, data: seq<bv8>, i: nat)
    requires i < |data|
    ensures State(r, data[..i + 1]) == Shift8(Plus(State(r, data[..i]), Load(data[i])))
  {
    hide Shift8, Plus, Load, Feed, Run, Msb, MsbFirst;
    MsbStep(data, i);
    RunAppend(Feed, r, MsbFirst(data[..i]), Msb(data[i]));
    FeedByte(State(r, data[..i]), data[i]);
  }

  // Each row is its first entry added to the first row, and these 31 entries are as the definition says.

  lemma Row0(c: int)
    requires 0 <= c < 16
    ensures ROW_0[c] == ROW_0[0] ^ ROW_0[c]
  {
  }

  lemma Row1(c: int)
    requires 0 <= c < 16
    ensures ROW_1[c] == ROW_1[0] ^ ROW_0[c]
  {
  }

  lemma Row2(c: int)
    requires 0 <= c < 16
    ensures ROW_2[c] == ROW_2[0] ^ ROW_0[c]
  {
  }

  lemma Row3(c: int)
    requires 0 <= c < 16
    ensures ROW_3[c] == ROW_3[0] ^ ROW_0[c]
  {
  }

  lemma Row4(c: int)
    requires 0 <= c < 16
    ensures ROW_4[c] == ROW_4[0] ^ ROW_0[c]
  {
  }

  lemma Row5(c: int)
    requires 0 <= c < 16
    ensures ROW_5[c] == ROW_5[0] ^ ROW_0[c]
  {
  }

  lemma Row6(c: int)
    requires 0 <= c < 16
    ensures ROW_6[c] == ROW_6[0] ^ ROW_0[c]
  {
  }

  lemma Row7(c: int)
    requires 0 <= c < 16
    ensures ROW_7[c] == ROW_7[0] ^ ROW_0[c]
  {
  }

  lemma Row8(c: int)
    requires 0 <= c < 16
    ensures ROW_8[c] == ROW_8[0] ^ ROW_0[c]
  {
  }

  lemma Row9(c: int)
    requires 0 <= c < 16
    ensures ROW_9[c] == ROW_9[0] ^ ROW_0[c]
  {
  }

  lemma RowA(c: int)
    requires 0 <= c < 16
    ensures ROW_A[c] == ROW_A[0] ^ ROW_0[c]
  {
  }

  lemma RowB(c: int)
    requires 0 <= c < 16
    ensures ROW_B[c] == ROW_B[0] ^ ROW_0[c]
  {
  }

  lemma RowC(c: int)
    requires 0 <= c < 16
    ensures ROW_C[c] == ROW_C[0] ^ ROW_0[c]
  {
  }

  lemma RowD(c: int)
    requires 0 <= c < 16
    ensures ROW_D[c] == ROW_D[0] ^ ROW_0[c]
  {
  }

  lemma RowE(c: int)
    requires 0 <= c < 16
    ensures ROW_E[c] == ROW_E[0] ^ ROW_0[c]
  {
  }

  lemma RowF(c: int)
    requires 0 <= c < 16
    ensures ROW_F[c] == ROW_F[0] ^ ROW_0[c]
  {
  }

  lemma FirstColumn()
    ensures ROW_0[0] == Seven(Shift8(0x00))
    ensures ROW_1[0] == Seven(Shift8(0x10))
    ensures ROW_2[0] == Seven(Shift8(0x20))
    ensures ROW_3[0] == Seven(Shift8(0x30))
    ensures ROW_4[0] == Seven(Shift8(0x40))
    ensures ROW_5[0] == Seven(Shift8(0x50))
    ensures ROW_6[0] == Seven(Shift8(0x60))
    ensures ROW_7[0] == Seven(Shift8(0x70))
    ensures ROW_8[0] == Seven(Shift8(0x80))
    ensures ROW_9[0] == Seven(Shift8(0x90))
    ensures ROW_A[0] == Seven(Shift8(0xa0))
    ensures ROW_B[0] == Seven(Shift8(0xb0))
    ensures ROW_C[0] == Seven(Shift8(0xc0))
    ensures ROW_D[0] == Seven(Shift8(0xd0))
    ensures ROW_E[0] == Seven(Shift8(0xe0))
    ensures ROW_F[0] == Seven(Shift8(0xf0))
  {
  }

  lemma FirstRow0()
    ensures ROW_0[0] == Seven(Shift8(0x00))
    ensures ROW_0[1] == Seven(Shift8(0x01))
    ensures ROW_0[2] == Seven(Shift8(0x02))
    ensures ROW_0[3] == Seven(Shift8(0x03))
  {
  }

  lemma FirstRow1()
    ensures ROW_0[4] == Seven(Shift8(0x04))
    ensures ROW_0[5] == Seven(Shift8(0x05))
    ensures ROW_0[6] == Seven(Shift8(0x06))
    ensures ROW_0[7] == Seven(Shift8(0x07))
  {
  }

  lemma FirstRow2()
    ensures ROW_0[8] == Seven(Shift8(0x08))
    ensures ROW_0[9] == Seven(Shift8(0x09))
    ensures ROW_0[10] == Seven(Shift8(0x0a))
    ensures ROW_0[11] == Seven(Shift8(0x0b))
  {
  }

  lemma FirstRow3()
    ensures ROW_0[12] == Seven(Shift8(0x0c))
    ensures ROW_0[13] == Seven(Shift8(0x0d))
    ensures ROW_0[14] == Seven(Shift8(0x0e))
    ensures ROW_0[15] == Seven(Shift8(0x0f))
  {
  }

  /** Every entry of the table is the register after eight shifts. */
  lemma EntryIs(i: bv8)
    ensures Table(i) == Seven(Shift8(Load(i)))
  {
    hide Shift8, Plus, Load, Seven;
    Columns(i & 0xf);
    Heads(i >> 4);
    RowSplits((i >> 4) as int, (i & 0xf) as int);
    Nibbles(i);
    Linear8(Load(i & 0xf0), Load(i & 0xf));
    Halves(Shift8(Load(i & 0xf0)), Shift8(Load(i & 0xf)));
  }

  lemma Halves(a: bv8, b: bv8)
    ensures Seven(Plus(a, b)) == Plus(Seven(a), Seven(b))
  {
  }

  lemma Nibbles(i: bv8)
    ensures Load(i) == Plus(Load(i & 0xf0), Load(i & 0xf)) && (i >> 4) << 4 == i & 0xf0
  {
    assert (i & 0xf0) | (i & 0xf) == i && (i & 0xf0) & (i & 0xf) == 0;
  }

  lemma Columns(l: bv8)
    requires l < 16
    ensures ROW_0[l as int] == Seven(Shift8(Load(l)))
  {
    hide Shift8;
    FirstRow0();
    FirstRow1();
    FirstRow2();
    FirstRow3();
  }

  lemma Heads(h: bv8)
    requires h < 16
    ensures Row(h as int)[0] == Seven(Shift8(Load(h << 4)))
  {
    hide Shift8;
    FirstColumn();
  }

  lemma RowSplits(k: int, c: int)
    requires 0 <= k < 16 && 0 <= c < 16
    ensures Row(k)[c] == Plus(Row(k)[0], ROW_0[c])
  {
    hide ROW_0, ROW_1, ROW_2, ROW_3, ROW_4, ROW_5, ROW_6, ROW_7, ROW_8, ROW_9, ROW_A, ROW_B, ROW_C, ROW_D, ROW_E, ROW_F;
    if k == 1 {
      Row1(c);
    } else if k == 2 {
      Row2(c);
    } else if k == 3 {
      Row3(c);
    } else if k == 4 {
      Row4(c);
    } else if k == 5 {
      Row5(c);
    } else if k == 6 {
      Row6(c);
    } else if k == 7 {
      Row7(c);
    } else if k == 8 {
      Row8(c);
    } else if k == 9 {
      Row9(c);
    } else if k == 10 {
      RowA(c);
    } else if k == 11 {
      RowB(c);
    } else if k == 12 {
      RowC(c);
    } else if k == 13 {
      RowD(c);
    } else if k == 14 {
      RowE(c);
    } else if k == 15 {
      RowF(c);
    } else {
      Row0(c);
    }
  }

  /** The remainder of the message, seven bits. */
  function Remainder(data: seq<bv8>): bv8 {
    Seven(State(0, data))
  }

  lemma Even(r: bv8)
    ensures (Shift8(r) >> 1) << 1 == Shift8(r) && Shift8(r) >> 1 < 0x80
  {
    hide Shift;
    var last := Shift(Shift(Shift(Shift(Shift(Shift(Shift(r)))))));
    ShiftEven(last);
  }

  lemma ShiftEven(r: bv8)
    ensures (Shift(r) >> 1) << 1 == Shift(r) && Shift(r) >> 1 < 0x80
  {
  }

  lemma Index(crc: bv8, d: bv8)
    requires crc < 0x80
    ensures ((crc as bv16) << 1) ^ (d as bv16) < 256
    ensures (((crc as bv16) << 1) ^ (d as bv16)) as bv8 == Plus(crc << 1, Load(d))
  {
  }

  /** The index, computed wider than a byte, stays inside the table, and the result is the remainder. */
  method SdCrc7(data: array<bv8>) returns (crc: bv8)
    ensures crc == Remainder(data[..]) && crc < 0x80
  {
    hide Shift8, Plus, Load, State;
    crc := 0;
    assert State(0, data[..0]) == 0 by { NothingFed(); assert data[..0] == []; }
    for offset := 0 to data.Length
      invariant crc < 0x80 && crc << 1 == State(0, data[..offset])
    {
      Index(crc, data[offset]);
      var index := ((crc as bv16) << 1) ^ (data[offset] as bv16);
      EntryIs(index as bv8);
      Even(Plus(crc << 1, Load(data[offset])));
      StateStep(0, data[..], offset);
      assert data[..][..offset] == data[..offset] && data[..][..offset + 1] == data[..offset + 1];
      ghost var was := crc;
      crc := Table(index as bv8);
      LoadIs(Plus(was << 1, Load(data[offset])));
    }
    assert data[..data.Length] == data[..];
    UpAndDown(crc);
  }

  lemma NothingFed()
    ensures State(0, []) == 0
  {
  }

  lemma LoadIs(d: bv8)
    ensures Load(d) == d
  {
  }

  lemma UpAndDown(crc: bv8)
    requires crc < 0x80
    ensures (crc << 1) >> 1 == crc
  {
  }

  /** A message followed by its own checksum leaves nothing over. */
  lemma ChecksumCancels(data: seq<bv8>)
    ensures Remainder(data + [Remainder(data) << 1]) == 0
  {
    hide Shift8, Plus, Load, State;
    var whole := data + [Remainder(data) << 1];
    StateStep(0, whole, |data|);
    assert whole[..|data| + 1] == whole && whole[..|data|] == data;
    EvenState(data);
    LoadIs(Remainder(data) << 1);
    PlusSame(State(0, data));
    ZeroStays();
  }

  lemma ZeroStays()
    ensures Shift8(0) == 0
  {
  }

  lemma EvenState(data: seq<bv8>)
    ensures (State(0, data) >> 1) << 1 == State(0, data)
  {
    hide Shift8, Plus, Load, State;
    if data == [] {
      NothingFed();
    } else {
      var last := |data| - 1;
      StateStep(0, data, last);
      assert data[..last + 1] == data;
      Even(Plus(State(0, data[..last]), Load(data[last])));
    }
  }
}
