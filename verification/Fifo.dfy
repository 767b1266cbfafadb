/** src/cloudpilot/emulator/Fifo.h: a ring of bytes that overwrites the oldest one when it is full. */
module Fifo {
  import opened Bytes

  /** The last n elements. */
  function Last<T>(s: seq<T>, n: nat): (r: seq<T>) {
    if |s| <= n then s else s[|s| - n..]
  }

  /** Only the last n elements ever matter for the last n elements. */
  lemma LastOfLast<T>(s: seq<T>, more: seq<T>, n: nat)
    ensures Last(Last(s, n) + more, n) == Last(s + more, n)
  {
    var cut := |s| - |Last(s, n)|;
    assert (s + more)[cut..] == Last(s, n) + more;
  }

  lemma SmallMod(a: nat, c: nat)
    requires c > 0 && a < 2 * c
    ensures a % c == if a < c then a else a - c
  {
    if a >= c {
      assert a == c + (a - c);
      ModOfSum(a - c, c);
    }
  }

  lemma ModOfSum(r: nat, c: nat)
    requires r < c
    ensures (c + r) % c == r
  {
    var a := c + r;
    assert a == (a / c) * c + a % c;
    if a / c == 0 { assert false; }
    if a / c >= 2 {
      assert (a / c) * c >= 2 * c by { Multiples(a / c, c); }
    }
  }

  lemma Multiples(k: nat, c: nat)
    requires k >= 2
    ensures k * c >= 2 * c
  {
  }

  /** The elements of a ring from a start on. */
  function Ring(buffer: seq<byte>, start: nat, size: nat): (s: seq<byte>)
    requires |buffer| > 0
    ensures |s| == size
  {
    seq(size, i requires 0 <= i < size => buffer[(start + i) % |buffer|])
  }

  lemma PushIntoRing(buffer: seq<byte>, start: nat, size: nat, value: byte)
    requires |buffer| > 0 && start < |buffer| && size <= |buffer|
    ensures (start + size) % |buffer| < |buffer|
    ensures var after, s := buffer[(start + size) % |buffer| := value], Ring(buffer, start, size);
      if size < |buffer| then Ring(after, start, size + 1) == s + [value]
      else Ring(after, (start + 1) % |buffer|, size) == s[1..] + [value]
  {
    var c := |buffer|;
    SmallMod(start + size, c);
    SmallMod(start + 1, c);
    var after, s := buffer[(start + size) % c := value], Ring(buffer, start, size);
    if size < c {
      forall i | 0 <= i <= size
        ensures Ring(after, start, size + 1)[i] == (s + [value])[i]
      {
        SmallMod(start + i, c);
      }
    } else {
      var first := (start + 1) % c;
      forall i | 0 <= i < size
        ensures Ring(after, first, size)[i] == (s[1..] + [value])[i]
      {
        SmallMod(first + i, c);
        SmallMod(start + i + 1, c);
      }
    }
  }

  lemma PopFromRing(buffer: seq<byte>, start: nat, size: nat)
    requires |buffer| > 0 && start < |buffer| && 0 < size <= |buffer|
    ensures Ring(buffer, start, size) == [buffer[start]] + Ring(buffer, (start + 1) % |buffer|, size - 1)
  {
    var c := |buffer|;
    SmallMod(start, c);
    SmallMod(start + 1, c);
    var first, s := (start + 1) % c, Ring(buffer, start, size);
    assert s[0] == buffer[start];
    forall i | 0 <= i < size - 1
      ensures Ring(buffer, first, size - 1)[i] == s[1..][i]
    {
      SmallMod(first + i, c);
      SmallMod(start + i + 1, c);
    }
    assert Ring(buffer, first, size - 1) == s[1..];
    assert s == [s[0]] + s[1..];
  }

  class Fifo {
    const capacity: nat
    const buffer: array<byte>
    var start: nat
    var size: nat
    /** Everything ever pushed, and how many bytes left by being popped or overwritten. */
    ghost var pushed: seq<byte>
    ghost var popped: nat
    ghost var overwritten: nat

    ghost predicate Valid()
      reads this, buffer
    {
      && 0 < capacity <= MAX32 / 2 && buffer.Length == capacity && start < capacity && size <= capacity
      && popped + overwritten <= |pushed| && Contents() == pushed[popped + overwritten..]
    }

    /** The bytes held, oldest first. */
    ghost function Contents(): (s: seq<byte>)
      requires buffer.Length > 0
      reads this, buffer
      ensures |s| == size
    {
      Ring(buffer[..], start, size)
    }

    constructor (capacity: nat)
      requires 0 < capacity <= MAX32 / 2
      ensures Valid() && Contents() == [] && this.capacity == capacity && fresh(buffer)
      ensures pushed == [] && popped == 0 && overwritten == 0
    {
      this.capacity := capacity;
      buffer := new byte[capacity](_ => 0);
      start, size := 0, 0;
      pushed, popped, overwritten := [], 0, 0;
    }

    method Push(value: byte)
      requires Valid()
      modifies this, buffer
      ensures Valid() && Contents() == Last(old(Contents()) + [value], capacity)
      ensures pushed == old(pushed) + [value] && popped == old(popped)
      ensures overwritten == old(overwritten) + if old(size) == capacity then 1 else 0
    {
      hide Ring;
      PushIntoRing(buffer[..], start, size, value);
      ghost var was, before := Contents(), buffer[..];
      buffer[(start + size) % capacity] := value;
      assert buffer[..] == before[(start + size) % capacity := value];
      if size < capacity {
        size := size + 1;
      } else {
        start := (start + 1) % capacity;
        overwritten := overwritten + 1;
      }
      pushed := pushed + [value];
      assert Contents() == Last(was + [value], capacity);
    }

    /** Zero if there is nothing to pop. */
    method Pop() returns (value: byte)
      requires Valid()
      modifies this
      ensures Valid() && pushed == old(pushed) && overwritten == old(overwritten)
      ensures old(size) == 0 ==> value == 0 && Contents() == [] && popped == old(popped)
      ensures old(size) > 0 ==> old(Contents()) == [value] + Contents() && popped == old(popped) + 1
    {
      if size == 0 { return 0; }
      hide Ring;
      PopFromRing(buffer[..], start, size);
      ghost var was := Contents();
      value := buffer[start];
      start := (start + 1) % capacity;
      size := size - 1;
      popped := popped + 1;
      assert Contents() == was[1..];
    }

    /** Every byte ever pushed has been popped, is still held, or was overwritten. */
    lemma Conservation()
      requires Valid()
      ensures |pushed| == popped + size + overwritten && Contents() == Last(pushed, size)
    {
    }

    function Free(): int
      reads this
    {
      capacity - size
    }

    method Clear()
      requires Valid()
      modifies this
      ensures Valid() && Contents() == [] && pushed == old(pushed) && popped == old(popped)
    {
      overwritten := overwritten + size;
      size, start := 0, 0;
    }
  }
}
