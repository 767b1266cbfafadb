/** Messages as streams of bits and registers fed bit by bit, the definition behind src/common/CPCrc.cpp. */
module BitStream {
  function Msb(d: bv8): (b: seq<bool>)
    ensures |b| == 8
  {
    [d & 0x80 != 0, d & 0x40 != 0, d & 0x20 != 0, d & 0x10 != 0, d & 8 != 0, d & 4 != 0, d & 2 != 0, d & 1 != 0]
  }

  function Lsb(d: bv8): (b: seq<bool>)
    ensures |b| == 8
  {
    [d & 1 != 0, d & 2 != 0, d & 4 != 0, d & 8 != 0, d & 0x10 != 0, d & 0x20 != 0, d & 0x40 != 0, d & 0x80 != 0]
  }

  /** The bits of a message, most significant bit of each byte first. */
  function MsbFirst(data: seq<bv8>): seq<bool> {
    if data == [] then [] else MsbFirst(data[..|data| - 1]) + Msb(data[|data| - 1])
  }

  function LsbFirst(data: seq<bv8>): seq<bool> {
    if data == [] then [] else LsbFirst(data[..|data| - 1]) + Lsb(data[|data| - 1])
  }

  /** A register fed bit by bit. */
  function Run<R>(step: (R, bool) -> R, r: R, bits: seq<bool>): R {
    if bits == [] then r else Run(step, step(r, bits[0]), bits[1..])
  }

  lemma {:induction false} RunAppend<R>(step: (R, bool) -> R, r: R, a: seq<bool>, b: seq<bool>)
    ensures Run(step, r, a + b) == Run(step, Run(step, r, a), b)
  {
    if a == [] {
      assert a + b == b;
    } else {
      assert (a + b)[1..] == a[1..] + b;
      RunAppend(step, step(r, a[0]), a[1..], b);
    }
  }

  lemma RunFour<R>(step: (R, bool) -> R, r: R, b: seq<bool>)
    requires |b| == 4
    ensures Run(step, r, b) == step(step(step(step(r, b[0]), b[1]), b[2]), b[3])
  {
    var c := b[1..];
    var d := c[1..];
    var e := d[1..];
    assert c[0] == b[1] && d[0] == b[2] && e[0] == b[3] && e[1..] == [];
    assert Run(step, r, b) == Run(step, step(r, b[0]), c);
    assert Run(step, step(r, b[0]), c) == Run(step, step(step(r, b[0]), b[1]), d);
    assert Run(step, step(step(r, b[0]), b[1]), d) == Run(step, step(step(step(r, b[0]), b[1]), b[2]), e);
  }

  lemma MsbStep(data: seq<bv8>, i: nat)
    requires i < |data|
    ensures MsbFirst(data[..i + 1]) == MsbFirst(data[..i]) + Msb(data[i])
  {
    assert data[..i + 1][..i] == data[..i];
  }

  lemma LsbStep(data: seq<bv8>, i: nat)
    requires i < |data|
    ensures LsbFirst(data[..i + 1]) == LsbFirst(data[..i]) + Lsb(data[i])
  {
    assert data[..i + 1][..i] == data[..i];
  }
}
