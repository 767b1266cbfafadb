/** src/cloudpilot/emulator/EmTransportSerialBuffer.cpp: two bounded byte pipes between the emulated
    UART and the host. */
module SerialBuffer {
  import opened Bytes
  import F = Fifo

  /** What the host does when it is asked for a transfer: it fetches everything, or not. */
  datatype Callback = NoCallback | Drains | Ignores

  datatype TransactionState = Idle | Sending | Receiving | WaitingForData

  /** The bytes that are lost when a write starts in sync mode with a draining host. */
  function LostAtEntry(held: nat, capacity: nat, count: nat): nat {
    if held == capacity && count > 0 then 1 else 0
  }

  // ---- discovery frames -------------------------------------------------------------------------------

  const FILL: byte := 0xff
  const FRAME_START: byte := 0xc0
  const ESCAPE: byte := 0x7d

  /** The bytes that stand for themselves: everything but the escapes. */
  function Unescaped(s: seq<byte>): nat {
    if s == [] then 0 else Unescaped(s[..|s| - 1]) + if s[|s| - 1] == ESCAPE then 0 else 1
  }

  /** A source address of four bytes, any of them escaped. */
  predicate IsAddress(s: seq<byte>) {
    s != [] && s[|s| - 1] != ESCAPE && Unescaped(s) == 4
  }

  /** Frame start, broadcast address, the command, its format, the source address, the destination address
      of everybody, a flag byte, and the number of a slot that is not the last. */
  predicate IsDiscovery(frame: seq<byte>, address: nat) {
    && 4 + address + 6 <= |frame|
    && frame[..4] == [FRAME_START, 0xff, 0x3f, 0x01]
    && IsAddress(frame[4..][..address])
    && frame[4 + address..8 + address] == [0xff, 0xff, 0xff, 0xff]
    && frame[9 + address] != 0xff
  }

  /** Any number of fill bytes and a discovery frame. */
  ghost predicate IsSniffing(buffer: seq<byte>) {
    exists fill: nat, address: nat ::
      fill <= |buffer| && (forall k :: 0 <= k < fill ==> buffer[k] == FILL) && IsDiscovery(buffer[fill..], address)
  }

  /** The frame can only start at the first byte that does not fill. */
  lemma OneStart(buffer: seq<byte>, i: nat)
    requires i <= |buffer| && (forall k :: 0 <= k < i ==> buffer[k] == FILL) && (i < |buffer| ==> buffer[i] != FILL)
    ensures IsSniffing(buffer) <==> exists address: nat :: IsDiscovery(buffer[i..], address)
  {
    if fill: nat, address: nat :|
      && fill <= |buffer| && (forall k :: 0 <= k < fill ==> buffer[k] == FILL)
      && IsDiscovery(buffer[fill..], address)
    {
      assert buffer[fill] == buffer[fill..][..4][0];
      assert fill == i;
    }
  }

  /** The address can only end with its fourth byte. */
  lemma OneAddress(s: seq<byte>, n: nat, address: nat)
    requires n <= |s| && address <= |s| && IsAddress(s[..address])
    ensures IsAddress(s[..n]) ==> address == n
    ensures Unescaped(s[..n]) < 4 ==> n < address
  {
    if address < n { UnescapedGrows(s, address, n); }
    if n < address { UnescapedGrows(s, n, address); }
  }

  lemma {:induction false} UnescapedGrows(s: seq<byte>, a: nat, b: nat)
    requires a <= b <= |s|
    ensures Unescaped(s[..a]) <= Unescaped(s[..b])
    ensures a < b && s[b - 1] != ESCAPE ==> Unescaped(s[..a]) < Unescaped(s[..b])
    decreases b - a
  {
    if a < b {
      assert s[..b][..b - 1] == s[..b - 1];
      UnescapedGrows(s, a, b - 1);
    }
  }

  /** The bytes of a discovery frame that have one value only. */
  lemma FrameBytes(frame: seq<byte>, n: nat)
    requires 4 + n + 6 <= |frame|
    ensures IsDiscovery(frame, n) <==>
      && frame[0] == FRAME_START && frame[1] == 0xff && frame[2] == 0x3f && frame[3] == 0x01
      && IsAddress(frame[4..][..n])
      && (forall j :: 4 + n <= j < 8 + n ==> frame[j] == 0xff) && frame[9 + n] != 0xff
  {
    var d := frame[4 + n..8 + n];
    assert forall j :: 0 <= j < 4 ==> d[j] == frame[4 + n + j];
  }

  /** Skips the source address, whose end is where it has four bytes. */
  method SkipAddress(buffer: seq<byte>, start: nat) returns (found: bool, end: nat)
    requires start <= |buffer|
    ensures found ==> start <= end <= |buffer| && IsAddress(buffer[start..][..end - start])
    ensures !found ==> Unescaped(buffer[start..]) < 4
  {
    ghost var s := buffer[start..];
    var j := 0;
    end := start;
    while j < 4
      invariant start <= end <= |buffer| && j <= 4 && Unescaped(s[..end - start]) == j
      invariant j == 4 ==> end > start && buffer[end - 1] != ESCAPE
      decreases |buffer| - end
    {
      if end >= |buffer| {
        assert s[..end - start] == s;
        return false, end;
      }
      assert s[..end - start + 1][..end - start] == s[..end - start];
      end := end + 1;
      if buffer[end - 1] == ESCAPE { continue; }
      j := j + 1;
    }
    return true, end;
  }

  /** Recognises a discovery frame; every byte that is looked at is part of the buffer. */
  method IsXIDSniffingCommand(buffer: seq<byte>) returns (sniffing: bool)
    ensures sniffing == IsSniffing(buffer)
  {
    hide IsSniffing, IsDiscovery, IsAddress, Unescaped;
    var size, i := |buffer|, 0;
    while i < size && buffer[i] != FRAME_START
      invariant i <= size && forall k :: 0 <= k < i ==> buffer[k] == FILL
    {
      if buffer[i] != FILL {
        OneStart(buffer, i);
        NoFrame(buffer[i..]);
        return false;
      }
      i := i + 1;
    }
    ghost var frame := buffer[i..];
    OneStart(buffer, i);
    NoFrame(frame);
    i := i + 1;
    if size < i + 3 { return false; }
    i := i + 1;
    if buffer[i - 1] != 0xff { return false; }
    i := i + 1;
    if buffer[i - 1] != 0x3f { return false; }
    i := i + 1;
    if buffer[i - 1] != 0x01 { return false; }
    ghost var start := i;
    assert buffer[start..] == frame[4..];
    var found, end := SkipAddress(buffer, i);
    if !found {
      ShortAddress(frame);
      return false;
    }
    i := end;
    AddressGiven(frame, i - start);
    if size < i + 6 { return false; }
    FrameBytes(frame, i - start);
    for j := 0 to 4
      invariant i == end + j && forall k :: end <= k < i ==> buffer[k] == 0xff
    {
      i := i + 1;
      if buffer[i - 1] != 0xff {
        assert frame[4 + end - start + j] != 0xff;
        return false;
      }
    }
    return buffer[i + 1] != 0xff;
  }

  /** A frame has its first four bytes. */
  lemma NoFrame(frame: seq<byte>)
    ensures (exists address: nat :: IsDiscovery(frame, address)) ==>
      |frame| >= 10 && frame[0] == FRAME_START && frame[1] == 0xff && frame[2] == 0x3f && frame[3] == 0x01
  {
    hide IsAddress;
    if address: nat :| IsDiscovery(frame, address) { FrameBytes(frame, address); }
  }

  lemma ShortAddress(frame: seq<byte>)
    requires |frame| >= 4 && Unescaped(frame[4..]) < 4
    ensures !exists address: nat :: IsDiscovery(frame, address)
  {
    if address: nat :| IsDiscovery(frame, address) {
      assert frame[4..][..|frame| - 4] == frame[4..];
      OneAddress(frame[4..], |frame| - 4, address);
    }
  }

  lemma AddressGiven(frame: seq<byte>, n: nat)
    requires 4 + n <= |frame| && IsAddress(frame[4..][..n])
    ensures (exists address: nat :: IsDiscovery(frame, address)) <==> IsDiscovery(frame, n)
    ensures IsDiscovery(frame, n) ==> 4 + n + 6 <= |frame|
  {
    if address: nat :| IsDiscovery(frame, address) { OneAddress(frame[4..], n, address); }
  }

  class EmTransportSerialBuffer {
    const bufferSize: nat
    const rxBuffer: F.Fifo
    const txBuffer: F.Fifo
    const copyOutBuffer: array<byte>
    var modeSync: bool
    var incomingFrameComplete: bool
    /** The last frame from the host is a discovery frame. */
    var isXIDCommandFrame: bool
    var transactionState: TransactionState
    var requestTransferCallback: Callback
    /** SuspendManager: the emulation waits for serial data. */
    var suspended: bool
    /** Everything the host has fetched by calling Receive. */
    ghost var received: seq<byte>

    ghost predicate Valid()
      reads this, rxBuffer, txBuffer, rxBuffer.buffer, txBuffer.buffer
    {
      && rxBuffer != txBuffer && rxBuffer.buffer != txBuffer.buffer
      && copyOutBuffer != rxBuffer.buffer && copyOutBuffer != txBuffer.buffer
      && rxBuffer.Valid() && txBuffer.Valid()
      && rxBuffer.capacity == txBuffer.capacity == bufferSize == copyOutBuffer.Length
    }

    constructor (bufferSize: nat)
      requires 0 < bufferSize <= MAX32 / 2
      ensures Valid() && this.bufferSize == bufferSize && !modeSync && requestTransferCallback == NoCallback
      ensures rxBuffer.Contents() == [] && txBuffer.Contents() == [] && received == []
    {
      this.bufferSize := bufferSize;
      rxBuffer := new F.Fifo(bufferSize);
      txBuffer := new F.Fifo(bufferSize);
      copyOutBuffer := new byte[bufferSize](_ => 0);
      modeSync, incomingFrameComplete, requestTransferCallback, suspended := false, false, NoCallback, false;
      isXIDCommandFrame, transactionState := false, Idle;
      received := [];
    }

    /** Copies out everything held; the buffer is always large enough. */
    method Receive() returns (ghost count: nat)
      requires Valid()
      modifies this`received, rxBuffer, copyOutBuffer
      ensures Valid() && rxBuffer.Contents() == [] && rxBuffer.overwritten == old(rxBuffer.overwritten)
      ensures count == |old(rxBuffer.Contents())| <= copyOutBuffer.Length
      ensures copyOutBuffer[..count] == old(rxBuffer.Contents())
      ensures received == old(received) + old(rxBuffer.Contents())
    {
      hide F.Ring;
      ghost var held := rxBuffer.Contents();
      var i := 0;
      while rxBuffer.size > 0
        invariant Valid() && received == old(received) && rxBuffer.overwritten == old(rxBuffer.overwritten)
        invariant i <= |held| && copyOutBuffer[..i] == held[..i] && rxBuffer.Contents() == held[i..]
        decreases rxBuffer.size
      {
        var value := rxBuffer.Pop();
        copyOutBuffer[i] := value;
        i := i + 1;
      }
      count := i;
      received := received + held;
    }

    /** The callback of the host. */
    method RequestTransfer()
      requires Valid()
      modifies this`received, rxBuffer, copyOutBuffer
      ensures Valid() && rxBuffer.overwritten == old(rxBuffer.overwritten)
      ensures received + rxBuffer.Contents() == old(received + rxBuffer.Contents())
      ensures if requestTransferCallback == Drains then rxBuffer.Contents() == []
              else rxBuffer.Contents() == old(rxBuffer.Contents()) && received == old(received)
    {
      hide F.Ring;
      if requestTransferCallback == Drains {
        var n := Receive();
      }
    }

    ghost predicate Lossless()
      reads this
    {
      modeSync && requestTransferCallback == Drains
    }

    /** One round of the loop in Write. */
    method PushOne(value: byte)
      requires Valid()
      modifies this`received, rxBuffer, rxBuffer.buffer, copyOutBuffer
      ensures Valid()
      ensures Lossless() ==> |rxBuffer.Contents()| < bufferSize
      ensures Lossless() && |old(rxBuffer.Contents())| < bufferSize ==>
        && rxBuffer.overwritten == old(rxBuffer.overwritten)
        && received + rxBuffer.Contents() == old(received + rxBuffer.Contents()) + [value]
      ensures Lossless() && |old(rxBuffer.Contents())| == bufferSize ==>
        && rxBuffer.overwritten == old(rxBuffer.overwritten) + 1
        && received + rxBuffer.Contents() == old(received) + old(rxBuffer.Contents())[1..] + [value]
      ensures !Lossless() ==>
        received == old(received) && rxBuffer.Contents() == F.Last(old(rxBuffer.Contents()) + [value], bufferSize)
    {
      hide F.Ring;
      ghost var was := rxBuffer.Contents();
      rxBuffer.Push(value);
      ghost var held := rxBuffer.Contents();
      assert old(received) + held == old(received) + (was + [value])[|was| + 1 - |held|..];
      if modeSync && rxBuffer.Free() == 0 && requestTransferCallback != NoCallback {
        RequestTransfer();
      }
    }

    /** In sync mode a host that drains loses nothing, however long the write is, unless the buffer was
        full before; then it loses the oldest byte. Otherwise only the last bytes are kept. */
    method Write(buffer: seq<byte>) returns (ok: bool)
      requires Valid()
      modifies this`received, rxBuffer, rxBuffer.buffer, copyOutBuffer
      ensures Valid() && ok
      ensures var lost := LostAtEntry(|old(rxBuffer.Contents())|, bufferSize, |buffer|);
        Lossless() ==>
          && rxBuffer.overwritten == old(rxBuffer.overwritten) + lost
          && received + rxBuffer.Contents() == old(received) + old(rxBuffer.Contents())[lost..] + buffer
      ensures !Lossless() ==>
        received == old(received) && rxBuffer.Contents() == F.Last(old(rxBuffer.Contents()) + buffer, bufferSize)
    {
      hide F.Ring, F.Last;
      ghost var was := rxBuffer.Contents();
      ghost var stream := received + was[LostAtEntry(|was|, bufferSize, |buffer|)..];
      Whole(was, bufferSize);
      for i := 0 to |buffer|
        invariant Valid()
        invariant i == 0 ==> received == old(received) && rxBuffer.Contents() == was
        invariant i == 0 ==> rxBuffer.overwritten == old(rxBuffer.overwritten)
        invariant Lossless() && i > 0 ==>
          && |rxBuffer.Contents()| < bufferSize
          && rxBuffer.overwritten == old(rxBuffer.overwritten) + LostAtEntry(|was|, bufferSize, i)
          && received + rxBuffer.Contents() == stream + buffer[..i]
        invariant !Lossless() ==>
          received == old(received) && rxBuffer.Contents() == F.Last(was + buffer[..i], bufferSize)
      {
        F.LastOfLast(was + buffer[..i], [buffer[i]], bufferSize);
        OneMore(was, buffer, i);
        OneMore(stream, buffer, i);
        PushOne(buffer[i]);
      }
      OneMore(was, buffer, |buffer|);
      ok := true;
    }

    /** Takes bytes that the host has sent; in sync mode the emulation waits for the rest of a frame. */
    method Read(count: nat) returns (buffer: seq<byte>)
      requires Valid()
      modifies this`suspended, txBuffer
      ensures Valid() && old(txBuffer.Contents()) == buffer + txBuffer.Contents()
      ensures |buffer| == if count <= |old(txBuffer.Contents())| then count else |old(txBuffer.Contents())|
      ensures suspended == (old(suspended) || (modeSync && txBuffer.Contents() == [] && !incomingFrameComplete))
    {
      hide F.Ring;
      ghost var held := txBuffer.Contents();
      buffer := [];
      while |buffer| < count && txBuffer.size > 0
        invariant Valid() && suspended == old(suspended) && |buffer| <= count && held == buffer + txBuffer.Contents()
        decreases txBuffer.size
      {
        ghost var rest := txBuffer.Contents();
        var value := txBuffer.Pop();
        assert buffer + rest == (buffer + [value]) + txBuffer.Contents();
        buffer := buffer + [value];
      }
      if modeSync && txBuffer.size == 0 && !incomingFrameComplete { suspended := true; }
    }

    method PushSent(value: byte)
      requires Valid()
      modifies txBuffer, txBuffer.buffer
      ensures Valid() && txBuffer.Contents() == F.Last(old(txBuffer.Contents()) + [value], bufferSize)
    {
      hide F.Ring, F.Last;
      txBuffer.Push(value);
    }

    /** The end of a frame is sent in sync mode, and the emulation waits for the answer; without a frame the
        host is asked too, and the emulation waits only after a discovery frame, for the next slot. */
    method OnTransactionStateChange(oldState: TransactionState, newState: TransactionState)
      requires Valid()
      modifies this`transactionState, this`suspended, this`received, rxBuffer, copyOutBuffer
      ensures Valid() && transactionState == newState && rxBuffer.overwritten == old(rxBuffer.overwritten)
      ensures received + rxBuffer.Contents() == old(received + rxBuffer.Contents())
      ensures var asks := modeSync && oldState in {Sending, WaitingForData} && newState == Idle;
        && (asks && requestTransferCallback == Drains ==> rxBuffer.Contents() == [])
        && (!asks ==> rxBuffer.Contents() == old(rxBuffer.Contents()) && received == old(received))
        && suspended == (old(suspended) || (asks && (oldState == Sending || isXIDCommandFrame)))
    {
      hide F.Ring;
      transactionState := newState;
      if !modeSync || oldState == newState { return; }
      if oldState == Sending && newState == Idle {
        suspended := true;
        if requestTransferCallback != NoCallback { RequestTransfer(); }
      }
      if oldState == WaitingForData && newState == Idle {
        if requestTransferCallback != NoCallback { RequestTransfer(); }
        if isXIDCommandFrame { suspended := true; }
      }
    }

    method SetModeSync(sync: bool)
      requires Valid()
      modifies this`modeSync, this`transactionState, this`isXIDCommandFrame
      ensures Valid() && modeSync == sync
      ensures if sync == old(modeSync)
              then transactionState == old(transactionState) && isXIDCommandFrame == old(isXIDCommandFrame)
              else transactionState == Idle && !isXIDCommandFrame
    {
      if sync == modeSync { return; }
      modeSync, transactionState, isXIDCommandFrame := sync, Idle, false;
    }

    /** Appends what the host sends and wakes the emulation. */
    method Send(data: seq<byte>, frameComplete: bool) returns (count: nat)
      requires Valid()
      modifies this`incomingFrameComplete, this`isXIDCommandFrame, this`suspended, txBuffer, txBuffer.buffer
      ensures Valid() && count == |data| && incomingFrameComplete == frameComplete && !suspended
      ensures txBuffer.Contents() == F.Last(old(txBuffer.Contents()) + data, bufferSize)
      ensures isXIDCommandFrame == (modeSync && frameComplete && IsSniffing(data))
    {
      hide F.Ring, F.Last, IsSniffing;
      ghost var was := txBuffer.Contents();
      Whole(was, bufferSize);
      OneMore(was, data, 0);
      for i := 0 to |data|
        invariant Valid() && txBuffer.Contents() == F.Last(was + data[..i], bufferSize)
      {
        F.LastOfLast(was + data[..i], [data[i]], bufferSize);
        OneMore(was, data, i);
        PushSent(data[i]);
      }
      OneMore(was, data, |data|);
      incomingFrameComplete, isXIDCommandFrame, suspended := frameComplete, false, false;
      if modeSync && frameComplete { isXIDCommandFrame := IsXIDSniffingCommand(data); }
      return |data|;
    }
  }

  lemma OneMore(s: seq<byte>, t: seq<byte>, i: nat)
    requires i <= |t|
    ensures i < |t| ==> s + t[..i] + [t[i]] == s + t[..i + 1]
    ensures t[..0] == [] && s + t[..0] == s && t[..|t|] == t
  {
  }

  lemma Whole(s: seq<byte>, n: nat)
    ensures |s| <= n ==> F.Last(s + [], n) == s && s + [] == s
  {
  }
}
