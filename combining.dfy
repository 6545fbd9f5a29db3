// `_CombiningBuffer`: reads the inner stream and the outer stream from their own
// sockets and writes both, as chunks, into one buffer for the network socket.

module Combining {
  import opened Wire
  import opened Chunks
  import opened Poll
  import opened Splitting

  // ---------------------------------------------------------------------------
  // what one receive does

  /** What one `__receive_inner` or `__receive_outer` did: nothing, one chunk appended, or an exception. */
  datatype Take = NoTake | Took(chunk: Chunk) | Threw(fault: Fault)

  /**
    `__receive_inner` on a buffer of `len` bytes: nothing unless poll reported the
    source readable; an exception when a header no longer fits; otherwise the bytes
    read become one inner chunk (an empty one when the source reached EOF).
  */
  function ReceiveInnerTake(len: nat, src: Flags, recv: Recv): (t: Take)
    ensures t.Took? <==> src.read && len + U32Size < BufferLen && (recv.Data? || recv.ConnectionReset?)
    ensures t.Took? ==> t.chunk == Inner(Received(recv))
    ensures t.Threw? ==> src.read && t.fault == (if len + U32Size >= BufferLen then InnerBufferExceeded else RecvFailed)
  {
    if !src.read then NoTake
    else if len + U32Size >= BufferLen then Threw(InnerBufferExceeded)
    else if recv.WouldBlock? then NoTake
    else if recv.Failed? then Threw(RecvFailed)
    else Took(Inner(Received(recv)))
  }

  /** `__receive_outer`, the same for the outer source. */
  function ReceiveOuterTake(len: nat, src: Flags, recv: Recv): (t: Take)
    ensures t.Took? <==> src.read && len + U32Size < BufferLen && (recv.Data? || recv.ConnectionReset?)
    ensures t.Took? ==> t.chunk == Outer(Received(recv))
    ensures t.Threw? ==> src.read && t.fault == (if len + U32Size >= BufferLen then OuterBufferExceeded else RecvFailed)
  {
    if !src.read then NoTake
    else if len + U32Size >= BufferLen then Threw(OuterBufferExceeded)
    else if recv.WouldBlock? then NoTake
    else if recv.Failed? then Threw(RecvFailed)
    else Took(Outer(Received(recv)))
  }

  /** The buffer length after a take. */
  function Grown(len: nat, t: Take): (n: nat)
    ensures n >= len
  {
    if t.Took? then len + U32Size + |t.chunk.data| else len
  }

  /** The receive that comes first this round. */
  function FirstTake(len: nat, innerFirst: bool, innerSrc: Flags, outerSrc: Flags, innerRecv: Recv, outerRecv: Recv): Take {
    if innerFirst then ReceiveInnerTake(len, innerSrc, innerRecv) else ReceiveOuterTake(len, outerSrc, outerRecv)
  }

  /** The two receives of one `_receive`. */
  datatype Receipt = Receipt(first: Take, second: Take)

  /**
    `_receive` as written: the first source is read whatever the buffer length; the
    second one only when the first raised nothing and a header still fits.
  */
  function ReceiveAsWritten(len: nat, innerFirst: bool, innerSrc: Flags, outerSrc: Flags, innerRecv: Recv, outerRecv: Recv): (r: Receipt)
    ensures r.first == FirstTake(len, innerFirst, innerSrc, outerSrc, innerRecv, outerRecv)
    ensures r.second != NoTake ==> !r.first.Threw? && Grown(len, r.first) + U32Size < BufferLen
  {
    var first := FirstTake(len, innerFirst, innerSrc, outerSrc, innerRecv, outerRecv);
    var mid := Grown(len, first);
    var second :=
      if first.Threw? || mid + U32Size >= BufferLen then NoTake
      else if innerFirst then ReceiveOuterTake(mid, outerSrc, outerRecv)
      else ReceiveInnerTake(mid, innerSrc, innerRecv);
    Receipt(first, second)
  }

  /** `_receive` with the first receive guarded like the second: nothing is read when no header fits. */
  function ReceiveGuarded(len: nat, innerFirst: bool, innerSrc: Flags, outerSrc: Flags, innerRecv: Recv, outerRecv: Recv): (r: Receipt)
    ensures len + U32Size < BufferLen ==> r == ReceiveAsWritten(len, innerFirst, innerSrc, outerSrc, innerRecv, outerRecv)
    ensures len + U32Size >= BufferLen ==> r == Receipt(NoTake, NoTake)
  {
    if len + U32Size >= BufferLen then Receipt(NoTake, NoTake)
    else ReceiveAsWritten(len, innerFirst, innerSrc, outerSrc, innerRecv, outerRecv)
  }

  function TakenChunks(t: Take): (cs: seq<Chunk>)
    ensures |cs| <= 1
  {
    if t.Took? then [t.chunk] else []
  }

  /** The chunks a receipt appended, in order. */
  function ReceiptChunks(r: Receipt): seq<Chunk> {
    TakenChunks(r.first) + TakenChunks(r.second)
  }

  /** The exception a receipt ends in, if any. */
  function ReceiptStatus(r: Receipt): Status {
    if r.first.Threw? then Raised(r.first.fault)
    else if r.second.Threw? then Raised(r.second.fault)
    else Completed
  }

  /** The order flips when something was received and nothing was raised. */
  predicate Flips(r: Receipt) {
    ReceiptStatus(r).Completed? && (r.first.Took? || r.second.Took?)
  }

  /** Each `recv(n)` returns at most the `n` it was given, the room left at that moment. */
  predicate RecvBounded(len: nat, innerFirst: bool, innerSrc: Flags, outerSrc: Flags, innerRecv: Recv, outerRecv: Recv) {
    var first := FirstTake(len, innerFirst, innerSrc, outerSrc, innerRecv, outerRecv);
    && RecvAtMost(if innerFirst then innerRecv else outerRecv, BufferLen - len)
    && RecvAtMost(if innerFirst then outerRecv else innerRecv, BufferLen - Grown(len, first))
  }

  /**
    As written, an EOF appended by `_handle_errors` can leave no room for a header,
    and the first source, readable because poll was asked before the EOF was added,
    then raises.
  */
  lemma AsWrittenRaisesAfterEof(len: nat, innerFirst: bool, innerSrc: Flags, outerSrc: Flags, innerRecv: Recv, outerRecv: Recv)
    requires BufferLen - 2 * U32Size <= len < BufferLen - U32Size
    requires if innerFirst then innerSrc.read else outerSrc.read
    ensures len + U32Size < BufferLen
    ensures ReceiptStatus(ReceiveAsWritten(len + U32Size, innerFirst, innerSrc, outerSrc, innerRecv, outerRecv))
      == Raised(if innerFirst then InnerBufferExceeded else OuterBufferExceeded)
  {
  }

  /** The smallest such case: 4088 bytes when poll is prepared, then the outer source hangs up. */
  lemma HangUpOverflowExample()
    ensures 4088 + U32Size < BufferLen
    ensures ReceiptStatus(ReceiveAsWritten(4088 + |OuterEof()|, true,
      Flags(true, false, false), Flags(false, false, true), WouldBlock, WouldBlock)) == Raised(InnerBufferExceeded)
  {
    AsWrittenRaisesAfterEof(4088, true, Flags(true, false, false), Flags(false, false, true), WouldBlock, WouldBlock);
  }

  /** With the guard, a receive raises only when `recv` itself fails. */
  lemma {:induction false} GuardedRaisesOnlyOnFailure(len: nat, innerFirst: bool, innerSrc: Flags, outerSrc: Flags, innerRecv: Recv, outerRecv: Recv)
    ensures var r := ReceiveGuarded(len, innerFirst, innerSrc, outerSrc, innerRecv, outerRecv);
      ReceiptStatus(r).Raised? ==> ReceiptStatus(r).fault == RecvFailed
  {
    var r := ReceiveGuarded(len, innerFirst, innerSrc, outerSrc, innerRecv, outerRecv);
    if len + U32Size < BufferLen {
      var mid := Grown(len, r.first);
      assert r.second.Threw? ==> mid + U32Size < BufferLen;
    }
  }

  /** A receipt appends at most one chunk of each stream, and only from a source poll reported readable. */
  lemma ReceiptChunksShape(len: nat, innerFirst: bool, innerSrc: Flags, outerSrc: Flags, innerRecv: Recv, outerRecv: Recv)
    ensures var cs := ReceiptChunks(ReceiveGuarded(len, innerFirst, innerSrc, outerSrc, innerRecv, outerRecv));
      && |cs| <= 2
      && (forall i :: 0 <= i < |cs| ==> if cs[i].Inner? then innerSrc.read else outerSrc.read)
      && (|cs| == 2 ==> cs[0].Inner? != cs[1].Inner?)
  {
  }

  // ---------------------------------------------------------------------------
  // the buffer's invariant

  function ClosedCount(innerOpen: bool, outerOpen: bool): (n: nat)
    ensures n <= 2
  {
    (if innerOpen then 0 else 1) + (if outerOpen then 0 else 1)
  }

  /**
    The combining buffer's invariant on the values of its fields: the bytes that left
    the buffer followed by the buffer are the encoding of the chunks appended; the
    chunks carry exactly what was read from each source; a source is closed exactly
    when its EOF chunk was appended; the buffer exceeds `BufferLen` by at most one
    receive's header plus one EOF per closed source.
  */
  ghost predicate Consistent(emitted: seq<Chunk>, gone: Bytes, buffer: Bytes,
      innerReceived: Bytes, outerReceived: Bytes, innerOpen: bool, outerOpen: bool) {
    && AllFit(emitted)
    && EncodeAll(emitted) == gone + buffer
    && InnerPayload(emitted) == innerReceived && OuterPayload(emitted) == outerReceived
    && (innerOpen <==> !HasInnerEof(emitted))
    && (outerOpen <==> !HasOuterEof(emitted))
    && |buffer| <= BufferLen + U32Size * (1 + ClosedCount(innerOpen, outerOpen))
  }

  /** Appending an inner chunk of what was read; an empty one closes the inner source. */
  lemma ConsistentAppendInner(emitted: seq<Chunk>, gone: Bytes, buffer: Bytes,
      innerReceived: Bytes, outerReceived: Bytes, innerOpen: bool, outerOpen: bool, data: Bytes)
    requires Consistent(emitted, gone, buffer, innerReceived, outerReceived, innerOpen, outerOpen)
    requires |buffer| + U32Size + |data| <= BufferLen + U32Size * (1 + ClosedCount(innerOpen && data != [], outerOpen))
    ensures Fits(Inner(data))
    ensures Consistent(emitted + [Inner(data)], gone, buffer + Encode(Inner(data)),
      innerReceived + data, outerReceived, innerOpen && data != [], outerOpen)
  {
    AppendChunk(emitted, Inner(data));
  }

  lemma ConsistentAppendOuter(emitted: seq<Chunk>, gone: Bytes, buffer: Bytes,
      innerReceived: Bytes, outerReceived: Bytes, innerOpen: bool, outerOpen: bool, data: Bytes)
    requires Consistent(emitted, gone, buffer, innerReceived, outerReceived, innerOpen, outerOpen)
    requires |buffer| + U32Size + |data| <= BufferLen + U32Size * (1 + ClosedCount(innerOpen, outerOpen && data != []))
    ensures Fits(Outer(data))
    ensures Consistent(emitted + [Outer(data)], gone, buffer + Encode(Outer(data)),
      innerReceived, outerReceived + data, innerOpen, outerOpen && data != [])
  {
    AppendChunk(emitted, Outer(data));
  }

  /** The first `k` bytes of the buffer leave it, sent or dropped. */
  lemma ConsistentDrain(emitted: seq<Chunk>, gone: Bytes, buffer: Bytes,
      innerReceived: Bytes, outerReceived: Bytes, innerOpen: bool, outerOpen: bool, k: nat)
    requires Consistent(emitted, gone, buffer, innerReceived, outerReceived, innerOpen, outerOpen)
    requires k <= |buffer|
    ensures Consistent(emitted, gone + buffer[..k], buffer[k..], innerReceived, outerReceived, innerOpen, outerOpen)
  {
    AppendAssoc(gone, buffer[..k], buffer[k..]);
    assert buffer[..k] + buffer[k..] == buffer;
  }

  // ---------------------------------------------------------------------------
  // the buffer

  /** What `_prepare_poll` asks poll to watch. */
  datatype CombineInterest = CombineInterest(innerRead: bool, outerRead: bool, dstWrite: bool)

  /**
    `_CombiningBuffer`. The sockets are replaced by the poll flags and the transfer
    outcomes each method is given; the ghost fields record the history of the streams.
  */
  class CombiningBuffer {
    var buffer: Bytes
    var bufferDropped: bool
    var innerSrcOpen: bool
    var outerSrcOpen: bool
    var dstShutDown: bool
    var receiveInnerFirst: bool

    /** The chunks appended to the buffer, in order. */
    ghost var emitted: seq<Chunk>
    /** The bytes read from the inner (outer) source, in order. */
    ghost var innerReceived: Bytes
    ghost var outerReceived: Bytes
    /** The bytes that have left the buffer, sent or dropped, in order. */
    ghost var gone: Bytes
    /** The bytes handed to the destination socket, in order. */
    ghost var sent: Bytes

    /**
      The buffer is the encoding of the chunks appended, less what has left it (see
      `Consistent`); until data is dropped, what left the buffer is what was sent.
    */
    ghost predicate Valid()
      reads this`buffer, this`bufferDropped, this`innerSrcOpen, this`outerSrcOpen
      reads this`emitted, this`innerReceived, this`outerReceived, this`gone, this`sent
    {
      && Consistent(emitted, gone, buffer, innerReceived, outerReceived, innerSrcOpen, outerSrcOpen)
      && (!bufferDropped ==> sent == gone)
    }

    /** No chunk of a stream follows its EOF. */
    ghost predicate Ordered()
      reads this`emitted
    {
      EndsOnce(emitted)
    }

    constructor ()
      ensures Valid() && Ordered()
      ensures buffer == [] && innerSrcOpen && outerSrcOpen && receiveInnerFirst
      ensures !bufferDropped && !dstShutDown
      ensures emitted == [] && sent == []
    {
      buffer, bufferDropped := [], false;
      innerSrcOpen, outerSrcOpen, dstShutDown := true, true, false;
      receiveInnerFirst := true;
      emitted, innerReceived, outerReceived, gone, sent := [], [], [], [], [];
    }

    /** `_active`: some work is still possible. */
    predicate Active()
      reads this`innerSrcOpen, this`outerSrcOpen, this`buffer
    {
      innerSrcOpen || outerSrcOpen || |buffer| > 0
    }

    /** `_prepare_poll`; whenever the buffer is active, something is watched. */
    function PreparePoll(): (r: CombineInterest)
      reads this`innerSrcOpen, this`outerSrcOpen, this`buffer
      ensures Active() ==> r.innerRead || r.outerRead || r.dstWrite
      ensures r.innerRead ==> innerSrcOpen && |buffer| + U32Size < BufferLen
      ensures r.outerRead ==> outerSrcOpen && |buffer| + U32Size < BufferLen
    {
      var room := |buffer| + U32Size < BufferLen;
      CombineInterest(room && innerSrcOpen, room && outerSrcOpen, |buffer| > 0)
    }

    /** Once inactive, both EOFs were appended and every byte of the encoding has left the buffer. */
    lemma InactiveDrained()
      requires Valid() && !Active()
      ensures HasInnerEof(emitted) && HasOuterEof(emitted)
      ensures gone == EncodeAll(emitted)
    {
    }

    /**
      The peer's view: once the buffer is inactive and nothing was dropped, a splitting
      buffer reading what was sent gets exactly the bytes read from each source, and
      both EOFs, and is left between chunks.
    */
    lemma Delivered()
      requires Valid() && !Active() && !bufferDropped
      ensures SplitBytes(Fresh, sent) == SplitState(Idle, innerReceived, outerReceived, true, true)
    {
      assert sent == EncodeAll(emitted);
      SplitChunks(Fresh, emitted);
    }

    /** The buffer once `_handle_errors` has appended the EOF of each source it closes. */
    function BufferWithEofs(innerSrc: Flags, outerSrc: Flags): (b: Bytes)
      reads this`innerSrcOpen, this`outerSrcOpen, this`buffer
      ensures buffer <= b && |b| <= |buffer| + 2 * U32Size
    {
      buffer + (if innerSrcOpen && ProblemWithoutRead(innerSrc) then InnerEof() else [])
      + (if outerSrcOpen && ProblemWithoutRead(outerSrc) then OuterEof() else [])
    }

    /** The buffer length after `_handle_errors` and `_send` with `count` bytes sent. */
    function LengthBeforeReceive(innerSrc: Flags, outerSrc: Flags, dst: Flags, count: nat): (n: nat)
      reads this`innerSrcOpen, this`outerSrcOpen, this`buffer
      ensures n <= |BufferWithEofs(innerSrc, outerSrc)|
    {
      var len := |BufferWithEofs(innerSrc, outerSrc)|;
      if dst.problem then 0 else if Writable(dst) && count <= len then len - count else len
    }

    /**
      `_handle_errors`: a source with a problem and nothing to read is closed, and its
      EOF appended, the first time only; a destination with a problem loses the buffer.
    */
    method HandleErrors(innerSrc: Flags, outerSrc: Flags, dst: Flags)
      requires Valid()
      modifies this`buffer, this`bufferDropped, this`innerSrcOpen, this`outerSrcOpen, this`emitted, this`gone
      ensures Valid()
      ensures old(Ordered()) ==> Ordered()
      ensures innerSrcOpen == (old(innerSrcOpen) && !ProblemWithoutRead(innerSrc))
      ensures outerSrcOpen == (old(outerSrcOpen) && !ProblemWithoutRead(outerSrc))
      ensures emitted == old(emitted)
        + (if old(innerSrcOpen) && !innerSrcOpen then [Inner([])] else [])
        + (if old(outerSrcOpen) && !outerSrcOpen then [Outer([])] else [])
      ensures buffer == if dst.problem then [] else old(BufferWithEofs(innerSrc, outerSrc))
      ensures gone == old(gone) + if dst.problem then old(BufferWithEofs(innerSrc, outerSrc)) else []
      ensures bufferDropped == (old(bufferDropped) || (dst.problem && old(BufferWithEofs(innerSrc, outerSrc)) != []))
    {
      CloseSources(innerSrc, outerSrc);
      Drop(dst);
    }

    /** The sources half of `_handle_errors`. */
    method CloseSources(innerSrc: Flags, outerSrc: Flags)
      requires Valid()
      modifies this`buffer, this`innerSrcOpen, this`outerSrcOpen, this`emitted
      ensures Valid()
      ensures old(Ordered()) ==> Ordered()
      ensures innerSrcOpen == (old(innerSrcOpen) && !ProblemWithoutRead(innerSrc))
      ensures outerSrcOpen == (old(outerSrcOpen) && !ProblemWithoutRead(outerSrc))
      ensures emitted == old(emitted)
        + (if old(innerSrcOpen) && !innerSrcOpen then [Inner([])] else [])
        + (if old(outerSrcOpen) && !outerSrcOpen then [Outer([])] else [])
      ensures buffer == old(BufferWithEofs(innerSrc, outerSrc))
    {
      CloseInner(innerSrc);
      CloseOuter(outerSrc);
    }

    method CloseInner(src: Flags)
      requires Valid()
      modifies this`buffer, this`innerSrcOpen, this`emitted
      ensures Valid()
      ensures old(Ordered()) ==> Ordered()
      ensures innerSrcOpen == (old(innerSrcOpen) && !ProblemWithoutRead(src))
      ensures emitted == old(emitted) + (if old(innerSrcOpen) && !innerSrcOpen then [Inner([])] else [])
      ensures buffer == old(buffer) + (if old(innerSrcOpen) && !innerSrcOpen then InnerEof() else [])
    {
      if ProblemWithoutRead(src) && innerSrcOpen {
        ConsistentAppendInner(emitted, gone, buffer, innerReceived, outerReceived, innerSrcOpen, outerSrcOpen, []);
        if EndsOnce(emitted) {
          EndsOnceAppend(emitted, Inner([]));
        }
        emitted := emitted + [Inner([])];
        buffer := buffer + InnerEof();
        innerSrcOpen := false;
      }
    }

    method CloseOuter(src: Flags)
      requires Valid()
      modifies this`buffer, this`outerSrcOpen, this`emitted
      ensures Valid()
      ensures old(Ordered()) ==> Ordered()
      ensures outerSrcOpen == (old(outerSrcOpen) && !ProblemWithoutRead(src))
      ensures emitted == old(emitted) + (if old(outerSrcOpen) && !outerSrcOpen then [Outer([])] else [])
      ensures buffer == old(buffer) + (if old(outerSrcOpen) && !outerSrcOpen then OuterEof() else [])
    {
      if ProblemWithoutRead(src) && outerSrcOpen {
        ConsistentAppendOuter(emitted, gone, buffer, innerReceived, outerReceived, innerSrcOpen, outerSrcOpen, []);
        if EndsOnce(emitted) {
          EndsOnceAppend(emitted, Outer([]));
        }
        emitted := emitted + [Outer([])];
        buffer := buffer + OuterEof();
        outerSrcOpen := false;
      }
    }

    method Drop(dst: Flags)
      requires Valid()
      modifies this`buffer, this`bufferDropped, this`gone
      ensures Valid()
      ensures buffer == if dst.problem then [] else old(buffer)
      ensures bufferDropped == (old(bufferDropped) || (dst.problem && old(buffer) != []))
      ensures gone == old(gone) + (if dst.problem then old(buffer) else [])
    {
      if dst.problem && |buffer| > 0 {
        ConsistentDrain(emitted, gone, buffer, innerReceived, outerReceived, innerSrcOpen, outerSrcOpen, |buffer|);
        assert buffer[..|buffer|] == buffer;
        bufferDropped := true;
        gone := gone + buffer;
        buffer := [];
      }
    }

    /** `_send`: a writable destination takes the first `count` bytes. */
    method Send(dst: Flags, count: nat)
      requires Valid()
      requires Writable(dst) ==> count <= |buffer|
      modifies this`buffer, this`sent, this`gone
      ensures Valid()
      ensures buffer == if Writable(dst) then old(buffer)[count..] else old(buffer)
      ensures sent == old(sent) + if Writable(dst) then old(buffer)[..count] else []
      ensures gone == old(gone) + if Writable(dst) then old(buffer)[..count] else []
    {
      if Writable(dst) {
        var b := buffer;
        ConsistentDrain(emitted, gone, buffer, innerReceived, outerReceived, innerSrcOpen, outerSrcOpen, count);
        sent := sent + b[..count];
        gone := gone + b[..count];
        buffer := b[count..];
      }
    }

    /** `__receive_inner`: returns whether something was received, or the exception raised. */
    method ReceiveInner(src: Flags, recv: Recv) returns (status: Status, got: bool)
      requires Valid()
      requires |buffer| + U32Size < BufferLen ==> RecvAtMost(recv, BufferLen - |buffer|)
      modifies this`buffer, this`innerSrcOpen, this`emitted, this`innerReceived
      ensures Valid()
      ensures var t := ReceiveInnerTake(old(|buffer|), src, recv);
        && status == (if t.Threw? then Raised(t.fault) else Completed)
        && got == t.Took?
        && emitted == old(emitted) + TakenChunks(t)
        && |buffer| == Grown(old(|buffer|), t)
    {
      if !src.read {
        return Completed, false;
      }
      if |buffer| + U32Size >= BufferLen {
        return Raised(InnerBufferExceeded), false;
      }
      if recv.WouldBlock? {
        return Completed, false;
      } else if recv.Failed? {
        return Raised(RecvFailed), false;
      }
      AppendInner(Received(recv));
      return Completed, true;
    }

    /** The bytes read become one inner chunk; an empty one marks the inner source closed. */
    method AppendInner(data: Bytes)
      requires Valid()
      requires |buffer| + U32Size < BufferLen && |data| <= BufferLen - |buffer|
      modifies this`buffer, this`innerSrcOpen, this`emitted, this`innerReceived
      ensures Valid()
      ensures emitted == old(emitted) + [Inner(data)]
      ensures buffer == old(buffer) + Encode(Inner(data))
      ensures innerReceived == old(innerReceived) + data
      ensures innerSrcOpen == (old(innerSrcOpen) && data != [])
    {
      ConsistentAppendInner(emitted, gone, buffer, innerReceived, outerReceived, innerSrcOpen, outerSrcOpen, data);
      emitted, buffer, innerReceived := emitted + [Inner(data)], buffer + Encode(Inner(data)), innerReceived + data;
      if |data| == 0 {
        innerSrcOpen := false;
      }
    }

    /** `__receive_outer` */
    method ReceiveOuter(src: Flags, recv: Recv) returns (status: Status, got: bool)
      requires Valid()
      requires |buffer| + U32Size < BufferLen ==> RecvAtMost(recv, BufferLen - |buffer|)
      modifies this`buffer, this`outerSrcOpen, this`emitted, this`outerReceived
      ensures Valid()
      ensures var t := ReceiveOuterTake(old(|buffer|), src, recv);
        && status == (if t.Threw? then Raised(t.fault) else Completed)
        && got == t.Took?
        && emitted == old(emitted) + TakenChunks(t)
        && |buffer| == Grown(old(|buffer|), t)
    {
      if !src.read {
        return Completed, false;
      }
      if |buffer| + U32Size >= BufferLen {
        return Raised(OuterBufferExceeded), false;
      }
      if recv.WouldBlock? {
        return Completed, false;
      } else if recv.Failed? {
        return Raised(RecvFailed), false;
      }
      AppendOuter(Received(recv));
      return Completed, true;
    }

    /** The bytes read become one outer chunk; an empty one marks the outer source closed. */
    method AppendOuter(data: Bytes)
      requires Valid()
      requires |buffer| + U32Size < BufferLen && |data| <= BufferLen - |buffer|
      modifies this`buffer, this`outerSrcOpen, this`emitted, this`outerReceived
      ensures Valid()
      ensures emitted == old(emitted) + [Outer(data)]
      ensures buffer == old(buffer) + Encode(Outer(data))
      ensures outerReceived == old(outerReceived) + data
      ensures outerSrcOpen == (old(outerSrcOpen) && data != [])
    {
      ConsistentAppendOuter(emitted, gone, buffer, innerReceived, outerReceived, innerSrcOpen, outerSrcOpen, data);
      emitted, buffer, outerReceived := emitted + [Outer(data)], buffer + Encode(Outer(data)), outerReceived + data;
      if |data| == 0 {
        outerSrcOpen := false;
      }
    }

    /**
      `_receive`, alternating which source is read first so that neither starves. The
      first receive is guarded like the second one (see `ReceiveGuarded`).
    */
    method Receive(innerSrc: Flags, outerSrc: Flags, innerRecv: Recv, outerRecv: Recv) returns (status: Status)
      requires Valid()
      requires RecvBounded(|buffer|, receiveInnerFirst, innerSrc, outerSrc, innerRecv, outerRecv)
      modifies this`buffer, this`innerSrcOpen, this`outerSrcOpen, this`emitted
      modifies this`innerReceived, this`outerReceived, this`receiveInnerFirst
      ensures Valid()
      ensures var r := ReceiveGuarded(old(|buffer|), old(receiveInnerFirst), innerSrc, outerSrc, innerRecv, outerRecv);
        && status == ReceiptStatus(r)
        && emitted == old(emitted) + ReceiptChunks(r)
        && receiveInnerFirst == (old(receiveInnerFirst) != Flips(r))
    {
      ghost var r := ReceiveGuarded(|buffer|, receiveInnerFirst, innerSrc, outerSrc, innerRecv, outerRecv);
      if |buffer| + U32Size >= BufferLen {
        assert r == Receipt(NoTake, NoTake);
        return Completed;
      }
      var got;
      if receiveInnerFirst {
        status, got := ReceiveInnerThenOuter(innerSrc, outerSrc, innerRecv, outerRecv, r);
      } else {
        status, got := ReceiveOuterThenInner(innerSrc, outerSrc, innerRecv, outerRecv, r);
      }
      assert Flips(r) == (status.Completed? && got);
      Alternate(status.Completed? && got);
    }

    /** After a round that received something and raised nothing, the other side goes first. */
    method Alternate(flip: bool)
      modifies this`receiveInnerFirst
      ensures receiveInnerFirst == (old(receiveInnerFirst) != flip)
    {
      receiveInnerFirst := receiveInnerFirst != flip;
    }

    method ReceiveInnerThenOuter(innerSrc: Flags, outerSrc: Flags, innerRecv: Recv, outerRecv: Recv, ghost r: Receipt)
      returns (status: Status, got: bool)
      requires Valid()
      requires RecvBounded(|buffer|, true, innerSrc, outerSrc, innerRecv, outerRecv)
      requires r == ReceiveAsWritten(|buffer|, true, innerSrc, outerSrc, innerRecv, outerRecv)
      modifies this`buffer, this`innerSrcOpen, this`outerSrcOpen, this`emitted
      modifies this`innerReceived, this`outerReceived
      ensures Valid()
      ensures status == ReceiptStatus(r)
      ensures got == (r.first.Took? || r.second.Took?)
      ensures emitted == old(emitted) + ReceiptChunks(r)
    {
      ghost var e0 := emitted;
      var got2 := false;
      status, got := ReceiveInner(innerSrc, innerRecv);
      assert emitted == e0 + TakenChunks(r.first) && |buffer| == Grown(old(|buffer|), r.first);
      if status.Completed? && |buffer| + U32Size < BufferLen {
        ghost var e1 := emitted;
        assert r.second == ReceiveOuterTake(|buffer|, outerSrc, outerRecv);
        assert RecvAtMost(outerRecv, BufferLen - |buffer|);
        status, got2 := ReceiveOuter(outerSrc, outerRecv);
        got := got || got2;
        assert emitted == e1 + TakenChunks(r.second);
        AppendAssoc(e0, TakenChunks(r.first), TakenChunks(r.second));
      } else {
        assert r.second == NoTake;
        assert ReceiptChunks(r) == TakenChunks(r.first);
      }
    }

    method ReceiveOuterThenInner(innerSrc: Flags, outerSrc: Flags, innerRecv: Recv, outerRecv: Recv, ghost r: Receipt)
      returns (status: Status, got: bool)
      requires Valid()
      requires RecvBounded(|buffer|, false, innerSrc, outerSrc, innerRecv, outerRecv)
      requires r == ReceiveAsWritten(|buffer|, false, innerSrc, outerSrc, innerRecv, outerRecv)
      modifies this`buffer, this`innerSrcOpen, this`outerSrcOpen, this`emitted
      modifies this`innerReceived, this`outerReceived
      ensures Valid()
      ensures status == ReceiptStatus(r)
      ensures got == (r.first.Took? || r.second.Took?)
      ensures emitted == old(emitted) + ReceiptChunks(r)
    {
      ghost var e0 := emitted;
      var got2 := false;
      status, got := ReceiveOuter(outerSrc, outerRecv);
      assert emitted == e0 + TakenChunks(r.first) && |buffer| == Grown(old(|buffer|), r.first);
      if status.Completed? && |buffer| + U32Size < BufferLen {
        ghost var e1 := emitted;
        assert r.second == ReceiveInnerTake(|buffer|, innerSrc, innerRecv);
        assert RecvAtMost(innerRecv, BufferLen - |buffer|);
        status, got2 := ReceiveInner(innerSrc, innerRecv);
        got := got || got2;
        assert emitted == e1 + TakenChunks(r.second);
        AppendAssoc(e0, TakenChunks(r.first), TakenChunks(r.second));
      } else {
        assert r.second == NoTake;
        assert ReceiptChunks(r) == TakenChunks(r.first);
      }
    }

    /**
      `_check_shutdown`: the destination is shut down, once, when the buffer is no
      longer active; by then, unless data was dropped, every chunk has been sent.
    */
    method CheckShutdown() returns (shut: bool)
      requires Valid()
      modifies this`dstShutDown
      ensures shut <==> !Active() && !old(dstShutDown)
      ensures dstShutDown == (old(dstShutDown) || shut)
      ensures shut && !bufferDropped ==> sent == EncodeAll(emitted)
    {
      shut := false;
      if !Active() && !dstShutDown {
        shut := true;
        dstShutDown := true;
      }
    }

    /**
      The guarded `_receive` (`Receive`) with what the poll contract gives it: a source
      is reported readable only while it is open. Then no chunk follows its stream's
      EOF, and only a failing `recv` raises; `_receive` as written can also raise
      'Inner buffer length exceeded' (`AsWrittenRaisesAfterEof`).
    */
    method ReceiveInOrder(innerSrc: Flags, outerSrc: Flags, innerRecv: Recv, outerRecv: Recv) returns (status: Status)
      requires Valid()
      requires innerSrc.read ==> innerSrcOpen
      requires outerSrc.read ==> outerSrcOpen
      requires RecvBounded(|buffer|, receiveInnerFirst, innerSrc, outerSrc, innerRecv, outerRecv)
      modifies this`buffer, this`innerSrcOpen, this`outerSrcOpen, this`emitted
      modifies this`innerReceived, this`outerReceived, this`receiveInnerFirst
      ensures Valid()
      ensures status.Raised? ==> status.fault == RecvFailed
      ensures old(Ordered()) ==> Ordered()
    {
      ghost var before := emitted;
      ghost var len := |buffer|;
      ghost var innerFirst := receiveInnerFirst;
      status := Receive(innerSrc, outerSrc, innerRecv, outerRecv);
      ghost var r := ReceiveGuarded(len, innerFirst, innerSrc, outerSrc, innerRecv, outerRecv);
      GuardedRaisesOnlyOnFailure(len, innerFirst, innerSrc, outerSrc, innerRecv, outerRecv);
      if EndsOnce(before) {
        ReceiptKeepsOrder(before, r, len, innerFirst, innerSrc, outerSrc, innerRecv, outerRecv);
      }
    }

    /** `_handle_errors` then `_send`: what is left in the buffer before the receive. */
    method Transmit(innerSrc: Flags, outerSrc: Flags, dst: Flags, count: nat)
      requires Valid()
      requires Writable(dst) ==> count <= |BufferWithEofs(innerSrc, outerSrc)|
      modifies this`buffer, this`bufferDropped, this`innerSrcOpen, this`outerSrcOpen, this`emitted
      modifies this`gone, this`sent
      ensures Valid()
      ensures old(Ordered()) ==> Ordered()
      ensures innerSrcOpen == (old(innerSrcOpen) && !ProblemWithoutRead(innerSrc))
      ensures outerSrcOpen == (old(outerSrcOpen) && !ProblemWithoutRead(outerSrc))
      ensures |buffer| == old(LengthBeforeReceive(innerSrc, outerSrc, dst, count))
    {
      HandleErrors(innerSrc, outerSrc, dst);
      Send(dst, count);
    }

    /**
      One pass of the forwarding loop over this buffer, with the guarded `_receive`
      (`Receive`). The only exception left is a failing `recv`; when poll reports only
      what `_prepare_poll` asked for, no chunk is appended to a stream after its EOF.
    */
    method Round(innerSrc: Flags, outerSrc: Flags, dst: Flags, innerRecv: Recv, outerRecv: Recv, count: nat)
      returns (status: Status, shut: bool)
      requires Valid()
      requires innerSrc.read ==> PreparePoll().innerRead
      requires outerSrc.read ==> PreparePoll().outerRead
      requires Writable(dst) ==> count <= |BufferWithEofs(innerSrc, outerSrc)|
      requires RecvBounded(LengthBeforeReceive(innerSrc, outerSrc, dst, count), receiveInnerFirst,
        innerSrc, outerSrc, innerRecv, outerRecv)
      modifies this
      ensures Valid()
      ensures status.Raised? ==> status.fault == RecvFailed
      ensures old(Ordered()) ==> Ordered()
    {
      Transmit(innerSrc, outerSrc, dst, count);
      status := ReceiveInOrder(innerSrc, outerSrc, innerRecv, outerRecv);
      shut := CheckShutdown();
    }

    /** The chunks of a receipt may follow `cs` when the sources they come from have not ended. */
    static lemma ReceiptKeepsOrder(cs: seq<Chunk>, r: Receipt,
        len: nat, innerFirst: bool, innerSrc: Flags, outerSrc: Flags, innerRecv: Recv, outerRecv: Recv)
      requires r == ReceiveGuarded(len, innerFirst, innerSrc, outerSrc, innerRecv, outerRecv)
      requires EndsOnce(cs)
      requires innerSrc.read ==> !HasInnerEof(cs)
      requires outerSrc.read ==> !HasOuterEof(cs)
      ensures EndsOnce(cs + ReceiptChunks(r))
    {
      ReceiptChunksShape(len, innerFirst, innerSrc, outerSrc, innerRecv, outerRecv);
      var rs := ReceiptChunks(r);
      if |rs| == 0 {
        assert cs + rs == cs;
      } else {
        EndsOnceAppend(cs, rs[0]);
        if |rs| == 2 {
          EofOfAppend(cs, rs[0]);
          EndsOnceAppend(cs + [rs[0]], rs[1]);
          assert cs + rs == cs + [rs[0]] + [rs[1]];
        } else {
          assert cs + rs == cs + [rs[0]];
        }
      }
    }
  }
}
