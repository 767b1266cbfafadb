/** src/common/CardImage.cpp: the blocks of a card and the bitmap of its dirty pages. */
module CardImage {
  import opened Bytes

  const BLOCK_SIZE := 512
  const DIRTY_PAGE_SIZE := 8192

  // ---- the bitmap ---------------------------------------------------------------------------------

  function PageCount(blocksTotal: nat): nat {
    blocksTotal / 16 + if blocksTotal % 16 != 0 then 1 else 0
  }

  function BitmapSize(blocksTotal: nat): nat {
    PageCount(blocksTotal) / 8 + if PageCount(blocksTotal) % 8 > 0 then 1 else 0
  }

  /** 1 << k. */
  function Bit(k: nat): bv8
    requires k < 8
  {
    (1 as bv8) << k
  }

  predicate Has(b: bv8, k: nat)
    requires k < 8
  {
    b & Bit(k) != 0
  }

  function With(b: bv8, k: nat): bv8
    requires k < 8
  {
    b | Bit(k)
  }

  predicate IsDirty(bitmap: seq<bv8>, page: nat)
    requires page / 8 < |bitmap|
  {
    Has(bitmap[page / 8], page % 8)
  }

  lemma SetBit(b: bv8, j: nat, k: nat)
    requires j < 8 && k < 8
    ensures Has(With(b, j), k) <==> j == k || Has(b, k)
  {
    SetBits(b, Bit(j), Bit(k));
    Bits(j);
    Bits(k);
  }

  /** The eight bits. */
  lemma Bits(k: nat)
    requires k < 8
    ensures Bit(k) == if k == 0 then 1 else if k == 1 then 2 else if k == 2 then 4 else if k == 3 then 8
                      else if k == 4 then 0x10 else if k == 5 then 0x20 else if k == 6 then 0x40 else 0x80
  {
    if k == 0 {} else if k == 1 {} else if k == 2 {} else if k == 3 {}
    else if k == 4 {} else if k == 5 {} else if k == 6 {} else { assert k == 7; }
  }

  lemma SetBits(b: bv8, x: bv8, y: bv8)
    ensures (b | x) & y == (b & y) | (x & y)
  {
  }

  /** The bitmap marks exactly the given pages. */
  ghost predicate Marks(bitmap: seq<bv8>, pages: set<nat>) {
    && (forall page :: page in pages ==> page / 8 < |bitmap|)
    && forall page: nat :: page / 8 < |bitmap| ==> (IsDirty(bitmap, page) <==> page in pages)
  }

  lemma OneFlag(bitmap: seq<bv8>, page: nat, p: nat)
    requires page / 8 < |bitmap| && p / 8 < |bitmap|
    ensures var after := bitmap[page / 8 := With(bitmap[page / 8], page % 8)];
      IsDirty(after, p) <==> p == page || IsDirty(bitmap, p)
  {
    hide Has, With;
    if p / 8 == page / 8 {
      SetBit(bitmap[page / 8], page % 8, p % 8);
    }
  }

  lemma MarksOneMore(bitmap: seq<bv8>, pages: set<nat>, page: nat)
    requires Marks(bitmap, pages) && page / 8 < |bitmap|
    ensures Marks(bitmap[page / 8 := With(bitmap[page / 8], page % 8)], pages + {page})
  {
    hide With, IsDirty;
    forall p: nat | p / 8 < |bitmap|
      ensures IsDirty(bitmap[page / 8 := With(bitmap[page / 8], page % 8)], p) <==> p in pages + {page}
    {
      OneFlag(bitmap, page, p);
    }
  }

  /** Every page of the card has its bit inside the bitmap, for any number of blocks. */
  lemma PageInBitmap(blocksTotal: nat, block: nat)
    requires block < blocksTotal
    ensures block / 16 < PageCount(blocksTotal) && block / 16 / 8 < BitmapSize(blocksTotal)
  {
  }

  /** The pages of the blocks from one to another. */
  function PagesOf(firstBlock: nat, endBlock: nat): set<nat> {
    set block | firstBlock <= block < endBlock :: block / 16
  }

  lemma OnePageMore(firstBlock: nat, block: nat)
    requires firstBlock <= block
    ensures PagesOf(firstBlock, block + 1) == PagesOf(firstBlock, block) + {block / 16}
  {
    forall page | page in PagesOf(firstBlock, block) + {block / 16}
      ensures page in PagesOf(firstBlock, block + 1)
    {
      if page == block / 16 { assert block / 16 in PagesOf(firstBlock, block + 1); }
    }
  }

  /** Bytes that differ stand in pages of the set. */
  ghost predicate ChangesWithin(initial: seq<byte>, now: seq<byte>, pages: set<nat>) {
    |now| == |initial| && forall i :: 0 <= i < |now| && now[i] != initial[i] ==> i / DIRTY_PAGE_SIZE in pages
  }

  /** Overwriting bytes changes nothing outside the pages of the blocks they lie in. */
  lemma OverwrittenWithin(initial: seq<byte>, now: seq<byte>, pages: set<nat>, offset: nat, bytes: seq<byte>)
    requires ChangesWithin(initial, now, pages) && bytes != [] && offset + |bytes| <= |now|
    ensures var touched := PagesOf(offset / BLOCK_SIZE, (offset + |bytes| - 1) / BLOCK_SIZE + 1);
      ChangesWithin(initial, PutAt(now, offset, bytes), pages + touched)
  {
    var after, first, end := PutAt(now, offset, bytes), offset / BLOCK_SIZE, (offset + |bytes| - 1) / BLOCK_SIZE + 1;
    forall i | 0 <= i < |after| && after[i] != initial[i]
      ensures i / DIRTY_PAGE_SIZE in pages + PagesOf(first, end)
    {
      if offset <= i < offset + |bytes| {
        assert first <= i / BLOCK_SIZE < end && i / BLOCK_SIZE / 16 == i / DIRTY_PAGE_SIZE;
      } else {
        assert after[i] == now[i];
      }
    }
  }

  /** memcpy into the image. */
  method Overwrite(data: array<byte>, at: nat, bytes: seq<byte>)
    requires at + |bytes| <= data.Length
    modifies data
    ensures data[..] == PutAt(old(data[..]), at, bytes)
  {
    forall i | 0 <= i < |bytes| {
      data[at + i] := bytes[i];
    }
  }

  /** A sum that wraps around and then looks small enough. */
  predicate WrapsInto(offset: nat, count: nat, total: nat, wide: bool) {
    Sizes(wide) <= offset + count <= Sizes(wide) + total
  }

  /** The test of a range lets a range pass that leaves the card exactly if the sum wraps around and the rest
      is at most the size of the card. */
  lemma RangeTestExact(offset: nat, count: nat, total: nat, wide: bool)
    requires offset < Sizes(wide) && count < Sizes(wide) && total < Sizes(wide)
    ensures AsSize(offset + count, wide) <= total && offset + count > total <==> WrapsInto(offset, count, total, wide)
    ensures !WrapsInto(offset, count, total, wide) ==>
      (AsSize(offset + count, wide) <= total <==> offset + count <= total)
  {
    SizeWraps(offset + count, wide);
  }

  /** 300 bytes from 256 bytes below 4 GB on pass for a card of one block, if sizes have 32 bits. */
  lemma WrappingRangeExample()
    ensures var offset, count, total := 0xffff_ff00, 300, BLOCK_SIZE;
      AsSize(offset + count, false) <= total && offset + count > total && WrapsInto(offset, count, total, false)
  {
    RangeTestExact(0xffff_ff00, 300, BLOCK_SIZE, false);
  }

  class CardImage {
    /** Whether a size_t has 64 bits, or 32. */
    const wide: bool
    const blocksTotal: nat
    const data: array<byte>
    const dirtyPages: array<bv8>
    /** The image at the beginning, and the pages touched by a write since. */
    ghost const initial: seq<byte>
    ghost var touched: set<nat>

    ghost predicate Valid()
      reads this, data, dirtyPages
    {
      && data.Length == blocksTotal * BLOCK_SIZE < Sizes(wide) && dirtyPages.Length == BitmapSize(blocksTotal)
      && Marks(dirtyPages[..], touched)
      && ChangesWithin(initial, data[..], touched)
    }

    constructor (data: array<byte>, blocksTotal: nat, wide: bool)
      requires data.Length == blocksTotal * BLOCK_SIZE < Sizes(wide)
      ensures Valid() && this.wide == wide && this.data == data && this.blocksTotal == blocksTotal && fresh(dirtyPages)
      ensures initial == data[..] && touched == {}
    {
      var pageCount := blocksTotal / 16 + if blocksTotal % 16 != 0 then 1 else 0;
      var dirtyPageBufferSize := pageCount / 8 + if pageCount % 8 > 0 then 1 else 0;
      var pages := new bv8[dirtyPageBufferSize](_ => 0);
      this.data, this.blocksTotal, this.wide, dirtyPages := data, blocksTotal, wide, pages;
      initial, touched := data[..], {};
      new;
      forall page: nat | page / 8 < dirtyPages.Length
        ensures !IsDirty(dirtyPages[..], page)
      {
        assert dirtyPages[..][page / 8] == 0;
        NoBits(Bit(page % 8));
      }
    }

    /** What is not marked dirty need not be saved: it is as it was. */
    lemma CleanPageIsInitial(page: nat)
      requires Valid() && page < PageCount(blocksTotal)
      ensures page / 8 < dirtyPages.Length && (!IsDirty(dirtyPages[..], page) ==>
        forall i :: page * DIRTY_PAGE_SIZE <= i < (page + 1) * DIRTY_PAGE_SIZE && i < data.Length ==>
          data[i] == initial[i])
    {
      hide IsDirty;
      if !IsDirty(dirtyPages[..], page) {
        forall i | page * DIRTY_PAGE_SIZE <= i < (page + 1) * DIRTY_PAGE_SIZE && i < data.Length
          ensures data[i] == initial[i]
        {
          assert i / DIRTY_PAGE_SIZE == page && data[..][i] == data[i];
        }
      }
    }

    method MarkBlock(block: nat)
      requires block < blocksTotal && dirtyPages.Length == BitmapSize(blocksTotal) && Marks(dirtyPages[..], touched)
      modifies this`touched, dirtyPages
      ensures touched == old(touched) + {block / 16} && Marks(dirtyPages[..], touched)
    {
      hide With, IsDirty, Marks, BitmapSize;
      var page := block / 16;
      PageInBitmap(blocksTotal, block);
      ghost var was := dirtyPages[..];
      dirtyPages[page / 8] := With(dirtyPages[page / 8], page % 8);
      assert dirtyPages[..] == was[page / 8 := With(was[page / 8], page % 8)];
      MarksOneMore(was, touched, page);
      touched := touched + {page};
    }

    /** Writes whole blocks, as many as the card has from index on. */
    method Write(source: seq<byte>, index: nat, count: nat) returns (written: nat)
      requires Valid() && count * BLOCK_SIZE <= |source|
      modifies this`touched, data, dirtyPages
      ensures Valid()
      ensures written == if index >= blocksTotal then 0
                         else if count <= blocksTotal - index then count else blocksTotal - index
      ensures written == 0 ==> data[..] == old(data[..])
      ensures written > 0 ==>
        && index * BLOCK_SIZE + written * BLOCK_SIZE <= data.Length
        && data[..] == PutAt(old(data[..]), index * BLOCK_SIZE, source[..written * BLOCK_SIZE])
      ensures touched == old(touched) + PagesOf(index, index + written)
    {
      hide Marks, ChangesWithin, PutAt, PagesOf;
      NothingWritten(old(data[..]), index * BLOCK_SIZE, source, index);
      if index >= blocksTotal { return 0; }
      written := if count <= blocksTotal - index then count else blocksTotal - index;
      for block := index to index + written
        invariant touched == old(touched) + PagesOf(index, block) && Marks(dirtyPages[..], touched)
        invariant data[..] == PutAt(old(data[..]), index * BLOCK_SIZE, source[..(block - index) * BLOCK_SIZE])
      {
        var done := (block - index) * BLOCK_SIZE;
        Overwrite(data, block * BLOCK_SIZE, source[done..done + BLOCK_SIZE]);
        Extended(old(data[..]), index * BLOCK_SIZE, source, done, BLOCK_SIZE);
        OnePageMore(index, block);
        MarkBlock(block);
      }
      if written > 0 {
        OverwrittenWithin(initial, old(data[..]), old(touched), index * BLOCK_SIZE, source[..written * BLOCK_SIZE]);
      }
    }

    /** Refuses a range that leaves the card, unless it escapes the test. */
    method WriteByteRange(source: seq<byte>, offset: nat, count: nat) returns (ok: bool)
      requires Valid() && count <= |source| && offset < Sizes(wide) && count < Sizes(wide)
      requires !WrapsInto(offset, count, blocksTotal * BLOCK_SIZE, wide)
      modifies this`touched, data, dirtyPages
      ensures Valid() && ok == (offset + count <= blocksTotal * BLOCK_SIZE)
      ensures !ok || count == 0 ==> data[..] == old(data[..]) && touched == old(touched)
      ensures ok && count > 0 ==>
        && data[..] == PutAt(old(data[..]), offset, source[..count])
        && touched == old(touched) + PagesOf(offset / BLOCK_SIZE, (offset + count - 1) / BLOCK_SIZE + 1)
    {
      hide Marks, ChangesWithin, PutAt, PagesOf;
      RangeTestExact(offset, count, blocksTotal * BLOCK_SIZE, wide);
      if AsSize(offset + count, wide) > blocksTotal * BLOCK_SIZE { return false; }
      if count == 0 { return true; }
      OverwrittenWithin(initial, data[..], touched, offset, source[..count]);
      Overwrite(data, offset, source[..count]);
      MarkRangeDirty(offset, count);
      return true;
    }

    method MarkRangeDirty(offset: nat, count: nat)
      requires count > 0 && offset + count <= blocksTotal * BLOCK_SIZE
      requires dirtyPages.Length == BitmapSize(blocksTotal) && Marks(dirtyPages[..], touched)
      modifies this`touched, dirtyPages
      ensures Marks(dirtyPages[..], touched)
      ensures touched == old(touched) + PagesOf(offset / BLOCK_SIZE, (offset + count - 1) / BLOCK_SIZE + 1)
    {
      hide Marks, PagesOf;
      var firstBlock, lastBlock := offset / BLOCK_SIZE, (offset + count - 1) / BLOCK_SIZE;
      NoPages(firstBlock);
      for block := firstBlock to lastBlock + 1
        invariant touched == old(touched) + PagesOf(firstBlock, block) && Marks(dirtyPages[..], touched)
      {
        OnePageMore(firstBlock, block);
        MarkBlock(block);
      }
    }
  }

  lemma NoPages(index: nat)
    ensures PagesOf(index, index) == {}
  {
  }

  lemma NothingWritten(data: seq<byte>, at: nat, source: seq<byte>, index: nat)
    ensures PagesOf(index, index) == {} && source[..0] == []
    ensures at <= |data| ==> PutAt(data, at, []) == data
  {
  }

  lemma NoBits(b: bv8)
    ensures 0 & b == 0
  {
  }

  lemma Extended(data: seq<byte>, at: nat, source: seq<byte>, done: nat, n: nat)
    requires at + done + n <= |data| && done + n <= |source|
    ensures PutAt(PutAt(data, at, source[..done]), at + done, source[done..done + n])
         == PutAt(data, at, source[..done + n])
  {
  }
}
