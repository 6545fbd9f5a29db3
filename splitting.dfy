// `_SplittingBuffer`: reads the chunked stream from the network socket and splits it
// into the inner stream and the outer stream, each buffered for its own pipe.

module Splitting {
  import opened Wire
  import opened Chunks
  import opened Poll

  /** The parse state of the splitting buffer and the payload it has sorted so far. */
  datatype SplitState = SplitState(
    framer: Framer,
    inner: Bytes,
    outer: Bytes,
    gotInnerEof: bool,
    gotOuterEof: bool)

  const Fresh := SplitState(Idle, [], [], false, false)

  /** What an event read from the stream does to the splitting buffer. */
  function SplitEvent(s: SplitState, f: Framer, e: Event): SplitState {
    match e
    case InnerByte(b) => s.(framer := f, inner := s.inner + [b])
    case OuterByte(b) => s.(framer := f, outer := s.outer + [b])
    case HeaderByte => s.(framer := f)
    case InnerHeader(_, n) => s.(framer := f, gotInnerEof := s.gotInnerEof || n == 0)
    case OuterHeader(n) => s.(framer := f, gotOuterEof := s.gotOuterEof || n == 0)
  }

  function SplitByte(s: SplitState, b: byte): (r: SplitState)
    requires FramerValid(s.framer)
    ensures FramerValid(r.framer)
  {
    var fe := FrameByte(s.framer, b);
    SplitEvent(s, fe.0, fe.1)
  }

  /** The splitting buffer's reference behaviour: the bytes handled one at a time. */
  function SplitBytes(s: SplitState, data: Bytes): (r: SplitState)
    requires FramerValid(s.framer)
    ensures FramerValid(r.framer)
    decreases |data|
  {
    if data == [] then s else SplitBytes(SplitByte(s, data[0]), data[1..])
  }

  // ---------------------------------------------------------------------------
  // the partner: the stream a combining buffer writes

  /** The state after reading `cs` from an idle reader. */
  function AfterChunks(s: SplitState, cs: seq<Chunk>): SplitState {
    s.(inner := s.inner + InnerPayload(cs),
       outer := s.outer + OuterPayload(cs),
       gotInnerEof := s.gotInnerEof || HasInnerEof(cs),
       gotOuterEof := s.gotOuterEof || HasOuterEof(cs))
  }

  /** An event replaces the framer, so the framer it started from does not matter. */
  lemma SplitEventFramer(s: SplitState, t: SplitState, f: Framer, e: Event)
    requires s.(framer := Idle) == t.(framer := Idle)
    ensures SplitEvent(s, f, e) == SplitEvent(t, f, e)
  {
    assert s.inner == t.inner && s.outer == t.outer;
    assert s.gotInnerEof == t.gotInnerEof && s.gotOuterEof == t.gotOuterEof;
  }

  /** Receiving the stream in two pieces has the same effect as receiving it at once. */
  lemma {:induction false} SplitBytesAppend(s: SplitState, a: Bytes, b: Bytes)
    requires FramerValid(s.framer)
    ensures SplitBytes(s, a + b) == SplitBytes(SplitBytes(s, a), b)
    decreases |a|
  {
    if a == [] {
      assert a + b == b;
    } else {
      assert (a + b)[0] == a[0] && (a + b)[1..] == a[1..] + b;
      SplitBytesAppend(SplitByte(s, a[0]), a[1..], b);
    }
  }

  lemma SplitPrefix(s: SplitState, data: Bytes, k: nat)
    requires FramerValid(s.framer) && k <= |data|
    ensures SplitBytes(s, data) == SplitBytes(SplitBytes(s, data[..k]), data[k..])
  {
    assert data == data[..k] + data[k..];
    SplitBytesAppend(s, data[..k], data[k..]);
  }

  /** Payload bytes of an inner chunk in progress go to the inner buffer. */
  lemma {:induction false} SplitInnerRun(s: SplitState, run: Bytes)
    requires FramerValid(s.framer) && |run| <= s.framer.innerLeft
    ensures SplitBytes(s, run) ==
      s.(framer := s.framer.(innerLeft := s.framer.innerLeft - |run|), inner := s.inner + run)
    decreases |run|
  {
    if run != [] {
      var s' := SplitByte(s, run[0]);
      assert s' == s.(framer := s.framer.(innerLeft := s.framer.innerLeft - 1), inner := s.inner + [run[0]]);
      SplitInnerRun(s', run[1..]);
      AppendAssoc(s.inner, [run[0]], run[1..]);
      assert [run[0]] + run[1..] == run;
    }
  }

  /** Payload bytes of an outer chunk in progress go to the outer buffer. */
  lemma {:induction false} SplitOuterRun(s: SplitState, run: Bytes)
    requires FramerValid(s.framer) && s.framer.innerLeft == 0 && |run| <= s.framer.outerLeft
    ensures SplitBytes(s, run) ==
      s.(framer := s.framer.(outerLeft := s.framer.outerLeft - |run|), outer := s.outer + run)
    decreases |run|
  {
    if run != [] {
      var s' := SplitByte(s, run[0]);
      assert s' == s.(framer := s.framer.(outerLeft := s.framer.outerLeft - 1), outer := s.outer + [run[0]]);
      SplitOuterRun(s', run[1..]);
      AppendAssoc(s.outer, [run[0]], run[1..]);
      assert [run[0]] + run[1..] == run;
    }
  }

  /** Header bytes are collected; the fourth one decides the next chunk. */
  lemma {:induction false} SplitHeaderRun(s: SplitState, run: Bytes)
    requires FramerValid(s.framer) && s.framer.innerLeft == 0 && s.framer.outerLeft == 0
    requires 0 < |run| && |s.framer.header| + |run| <= U32Size
    ensures var h := s.framer.header + run;
      SplitBytes(s, run) ==
        if |h| < U32Size then s.(framer := s.framer.(header := h))
        else SplitEvent(s, HeaderDone(h).0, HeaderDone(h).1)
    decreases |run|
  {
    var h := s.framer.header + run;
    if |run| > 1 {
      var s' := SplitByte(s, run[0]);
      assert s' == s.(framer := s.framer.(header := s.framer.header + [run[0]]));
      SplitHeaderRun(s', run[1..]);
      AppendAssoc(s.framer.header, [run[0]], run[1..]);
      assert [run[0]] + run[1..] == run;
    } else {
      assert h == s.framer.header + [run[0]];
    }
  }

  /** A whole chunk read from an idle reader: its payload goes to its stream. */
  lemma SplitChunk(s: SplitState, c: Chunk)
    requires s.framer == Idle && Fits(c)
    ensures SplitBytes(s, Encode(c)) ==
      s.(inner := s.inner + (if c.Inner? then c.data else []),
         outer := s.outer + (if c.Outer? then c.data else []),
         gotInnerEof := s.gotInnerEof || c == Inner([]),
         gotOuterEof := s.gotOuterEof || c == Outer([]))
  {
    var h := Be32(HeaderValue(c));
    var e := Encode(c);
    SplitPrefix(s, e, U32Size);
    SplitHeaderRun(s, h);
    HeaderDoneOfChunk(c);
    var s1 := SplitBytes(s, h);
    if c.Inner? {
      assert s1 == s.(framer := Framer([], |c.data|, 0), gotInnerEof := s.gotInnerEof || |c.data| == 0);
      SplitInnerRun(s1, c.data);
    } else {
      assert s1 == s.(framer := Framer([], 0, |c.data|), gotOuterEof := s.gotOuterEof || |c.data| == 0);
      SplitOuterRun(s1, c.data);
    }
  }

  /**
    Reading the encoding of a sequence of chunks from an idle reader sorts every
    chunk's payload to its stream, notes each stream's EOF, and leaves the reader idle.
  */
  lemma {:induction false} SplitChunks(s: SplitState, cs: seq<Chunk>)
    requires s.framer == Idle && AllFit(cs)
    ensures SplitBytes(s, EncodeAll(cs)) == AfterChunks(s, cs)
    decreases |cs|, 1
  {
    if cs == [] {
      assert !HasInnerEof(cs) && !HasOuterEof(cs);
      assert AfterChunks(s, cs) == s;
    } else {
      SplitChunksSnoc(s, cs, cs[..|cs| - 1], cs[|cs| - 1]);
    }
  }

  /** The inductive step of `SplitChunks`, for `cs` given also as the chunks before its last one and the last one. */
  lemma {:induction false} SplitChunksSnoc(s: SplitState, cs: seq<Chunk>, init: seq<Chunk>, c: Chunk)
    requires s.framer == Idle && AllFit(cs) && cs == init + [c]
    ensures SplitBytes(s, EncodeAll(cs)) == AfterChunks(s, cs)
    decreases |cs|, 0
  {
    assert cs[..|cs| - 1] == init && cs[|cs| - 1] == c;
    assert AllFit(init);
    SplitBytesAppend(s, EncodeAll(init), Encode(c));
    SplitChunks(s, init);
    SplitChunk(AfterChunks(s, init), c);
    EofOfAppend(init, c);
    AppendAssoc(s.inner, InnerPayload(init), if c.Inner? then c.data else []);
    AppendAssoc(s.outer, OuterPayload(init), if c.Outer? then c.data else []);
  }

  /** Each byte read adds at most one byte to one of the two buffers. */
  lemma {:induction false} SplitBytesGrowth(s: SplitState, data: Bytes)
    requires FramerValid(s.framer)
    ensures var r := SplitBytes(s, data);
      && s.inner <= r.inner && |r.inner| <= |s.inner| + |data|
      && s.outer <= r.outer && |r.outer| <= |s.outer| + |data|
    decreases |data|
  {
    if data != [] {
      SplitBytesGrowth(SplitByte(s, data[0]), data[1..]);
    }
  }

  /** The bytes sorted earlier do not influence what later bytes do. */
  lemma {:induction false} SplitBytesShift(s: SplitState, data: Bytes, pi: Bytes, po: Bytes)
    requires FramerValid(s.framer)
    ensures var r := SplitBytes(s, data);
      SplitBytes(s.(inner := pi + s.inner, outer := po + s.outer), data) ==
      r.(inner := pi + r.inner, outer := po + r.outer)
    decreases |data|
  {
    if data != [] {
      var t := s.(inner := pi + s.inner, outer := po + s.outer);
      var s' := SplitByte(s, data[0]);
      assert SplitByte(t, data[0]) == s'.(inner := pi + s'.inner, outer := po + s'.outer);
      SplitBytesShift(s', data[1..], pi, po);
    }
  }

  // ---------------------------------------------------------------------------
  // the buffer

  /** What `_prepare_poll` asks poll to watch: the source for reading, each destination for writing. */
  datatype SplitInterest = SplitInterest(srcRead: bool, innerWrite: bool, outerWrite: bool)

  /** The buffer length after `_handle_errors` and `_send` with `dst` flags and `sent` bytes sent. */
  function LengthAfterSend(buffer: Bytes, dst: Flags, sent: nat): (n: nat)
    ensures n <= |buffer|
  {
    if dst.problem then 0 else if Writable(dst) && sent <= |buffer| then |buffer| - sent else |buffer|
  }

  /**
    `_SplittingBuffer`. The sockets are replaced by the poll flags and the transfer
    outcomes each method is given; the ghost fields record the history of the streams.
  */
  class SplittingBuffer {
    var header: Bytes
    var innerLeft: nat
    var outerLeft: nat
    var innerBuffer: Bytes
    var outerBuffer: Bytes
    var innerBufferDropped: bool
    var outerBufferDropped: bool
    var srcOpen: bool
    var gotInnerEof: bool
    var gotOuterEof: bool
    var innerDstShutDown: bool
    var outerDstShutDown: bool

    /** Everything received from the source, in order. */
    ghost var received: Bytes
    /** The inner (outer) bytes that have left the buffer, sent or dropped, in order. */
    ghost var innerGone: Bytes
    ghost var outerGone: Bytes
    /** The inner (outer) bytes handed to the destination socket, in order. */
    ghost var innerSent: Bytes
    ghost var outerSent: Bytes

    function Reader(): SplitState
      reads this`header, this`innerLeft, this`outerLeft, this`innerBuffer, this`outerBuffer
      reads this`gotInnerEof, this`gotOuterEof
    {
      SplitState(Framer(header, innerLeft, outerLeft), innerBuffer, outerBuffer, gotInnerEof, gotOuterEof)
    }

    /**
      The buffer is the byte-at-a-time reading of everything received, less what has
      left it; each buffer holds at most `BufferLen` bytes; until data is dropped, what
      left a buffer is what was sent.
    */
    ghost predicate Valid()
      reads this`header, this`innerLeft, this`outerLeft, this`innerBuffer, this`outerBuffer
      reads this`gotInnerEof, this`gotOuterEof, this`received, this`innerGone, this`outerGone
      reads this`innerSent, this`outerSent, this`innerBufferDropped, this`outerBufferDropped
    {
      && FramerValid(Framer(header, innerLeft, outerLeft))
      && |innerBuffer| <= BufferLen && |outerBuffer| <= BufferLen
      && SplitBytes(Fresh, received) == Reader().(inner := innerGone + innerBuffer, outer := outerGone + outerBuffer)
      && (!innerBufferDropped ==> innerSent == innerGone)
      && (!outerBufferDropped ==> outerSent == outerGone)
    }

    constructor ()
      ensures Valid()
      ensures Reader() == Fresh && srcOpen
      ensures !innerBufferDropped && !outerBufferDropped && !innerDstShutDown && !outerDstShutDown
      ensures received == [] && innerSent == [] && outerSent == []
    {
      header, innerLeft, outerLeft := [], 0, 0;
      innerBuffer, outerBuffer := [], [];
      innerBufferDropped, outerBufferDropped := false, false;
      srcOpen, gotInnerEof, gotOuterEof := true, false, false;
      innerDstShutDown, outerDstShutDown := false, false;
      received, innerGone, outerGone, innerSent, outerSent := [], [], [], [], [];
    }

    /** `_active`: some work is still possible. */
    predicate Active()
      reads this`srcOpen, this`gotInnerEof, this`gotOuterEof, this`innerBuffer, this`outerBuffer
    {
      (srcOpen && !(gotInnerEof && gotOuterEof)) || |innerBuffer| > 0 || |outerBuffer| > 0
    }

    /** `_prepare_poll`; whenever the buffer is active, something is watched. */
    function PreparePoll(): (r: SplitInterest)
      reads this`srcOpen, this`gotInnerEof, this`gotOuterEof, this`innerBuffer, this`outerBuffer
      ensures Active() ==> r.srcRead || r.innerWrite || r.outerWrite
      ensures r.srcRead ==> srcOpen && |innerBuffer| < BufferLen && |outerBuffer| < BufferLen
    {
      SplitInterest(srcOpen && Max(|innerBuffer|, |outerBuffer|) < BufferLen, |innerBuffer| > 0, |outerBuffer| > 0)
    }

    /** Once inactive, every byte sorted to either stream has left its buffer. */
    lemma InactiveDrained()
      requires Valid() && !Active()
      ensures SplitBytes(Fresh, received).inner == innerGone
      ensures SplitBytes(Fresh, received).outer == outerGone
    {
    }

    /** `_handle_errors` */
    method HandleErrors(src: Flags, innerDst: Flags, outerDst: Flags)
      requires Valid()
      modifies this`srcOpen, this`innerBuffer, this`outerBuffer, this`innerBufferDropped
      modifies this`outerBufferDropped, this`innerGone, this`outerGone
      ensures Valid()
      ensures srcOpen == (old(srcOpen) && !ProblemWithoutRead(src))
      ensures innerBuffer == (if innerDst.problem then [] else old(innerBuffer))
      ensures outerBuffer == (if outerDst.problem then [] else old(outerBuffer))
      ensures innerBufferDropped == (old(innerBufferDropped) || (innerDst.problem && old(innerBuffer) != []))
      ensures outerBufferDropped == (old(outerBufferDropped) || (outerDst.problem && old(outerBuffer) != []))
      ensures innerGone == old(innerGone) + (if innerDst.problem then old(innerBuffer) else [])
      ensures outerGone == old(outerGone) + (if outerDst.problem then old(outerBuffer) else [])
    {
      if ProblemWithoutRead(src) {
        srcOpen := false;
      }
      DropInner(innerDst);
      DropOuter(outerDst);
    }

    /** A destination with a problem loses whatever is buffered for it. */
    method DropInner(dst: Flags)
      requires Valid()
      modifies this`innerBuffer, this`innerBufferDropped, this`innerGone
      ensures Valid()
      ensures innerBuffer == (if dst.problem then [] else old(innerBuffer))
      ensures innerBufferDropped == (old(innerBufferDropped) || (dst.problem && old(innerBuffer) != []))
      ensures innerGone == old(innerGone) + (if dst.problem then old(innerBuffer) else [])
    {
      if dst.problem && |innerBuffer| > 0 {
        innerBufferDropped := true;
        innerGone := innerGone + innerBuffer;
        innerBuffer := [];
      }
    }

    method DropOuter(dst: Flags)
      requires Valid()
      modifies this`outerBuffer, this`outerBufferDropped, this`outerGone
      ensures Valid()
      ensures outerBuffer == (if dst.problem then [] else old(outerBuffer))
      ensures outerBufferDropped == (old(outerBufferDropped) || (dst.problem && old(outerBuffer) != []))
      ensures outerGone == old(outerGone) + (if dst.problem then old(outerBuffer) else [])
    {
      if dst.problem && |outerBuffer| > 0 {
        outerBufferDropped := true;
        outerGone := outerGone + outerBuffer;
        outerBuffer := [];
      }
    }

    /** `_send`: each writable destination takes the first `innerCount` (`outerCount`) bytes. */
    method Send(innerDst: Flags, innerCount: nat, outerDst: Flags, outerCount: nat)
      requires Valid()
      requires Writable(innerDst) ==> innerCount <= |innerBuffer|
      requires Writable(outerDst) ==> outerCount <= |outerBuffer|
      modifies this`innerBuffer, this`outerBuffer, this`innerSent, this`outerSent, this`innerGone, this`outerGone
      ensures Valid()
      ensures innerBuffer == if Writable(innerDst) then old(innerBuffer)[innerCount..] else old(innerBuffer)
      ensures outerBuffer == if Writable(outerDst) then old(outerBuffer)[outerCount..] else old(outerBuffer)
      ensures innerSent == old(innerSent) + if Writable(innerDst) then old(innerBuffer)[..innerCount] else []
      ensures outerSent == old(outerSent) + if Writable(outerDst) then old(outerBuffer)[..outerCount] else []
      ensures innerGone == old(innerGone) + if Writable(innerDst) then old(innerBuffer)[..innerCount] else []
      ensures outerGone == old(outerGone) + if Writable(outerDst) then old(outerBuffer)[..outerCount] else []
    {
      SendInner(innerDst, innerCount);
      SendOuter(outerDst, outerCount);
    }

    method SendInner(dst: Flags, count: nat)
      requires Valid()
      requires Writable(dst) ==> count <= |innerBuffer|
      modifies this`innerBuffer, this`innerSent, this`innerGone
      ensures Valid()
      ensures innerBuffer == if Writable(dst) then old(innerBuffer)[count..] else old(innerBuffer)
      ensures innerSent == old(innerSent) + if Writable(dst) then old(innerBuffer)[..count] else []
      ensures innerGone == old(innerGone) + if Writable(dst) then old(innerBuffer)[..count] else []
    {
      if Writable(dst) {
        var b := innerBuffer;
        AppendAssoc(innerGone, b[..count], b[count..]);
        assert b[..count] + b[count..] == b;
        innerSent := innerSent + b[..count];
        innerGone := innerGone + b[..count];
        innerBuffer := b[count..];
      }
    }

    method SendOuter(dst: Flags, count: nat)
      requires Valid()
      requires Writable(dst) ==> count <= |outerBuffer|
      modifies this`outerBuffer, this`outerSent, this`outerGone
      ensures Valid()
      ensures outerBuffer == if Writable(dst) then old(outerBuffer)[count..] else old(outerBuffer)
      ensures outerSent == old(outerSent) + if Writable(dst) then old(outerBuffer)[..count] else []
      ensures outerGone == old(outerGone) + if Writable(dst) then old(outerBuffer)[..count] else []
    {
      if Writable(dst) {
        var b := outerBuffer;
        AppendAssoc(outerGone, b[..count], b[count..]);
        assert b[..count] + b[count..] == b;
        outerSent := outerSent + b[..count];
        outerGone := outerGone + b[..count];
        outerBuffer := b[count..];
      }
    }

    /**
      `_receive`: read at most the room left in the fuller buffer and sort the bytes
      read, chunk piece by chunk piece, into the two buffers.
    */
    method Receive(src: Flags, recv: Recv) returns (status: Status)
      requires Valid()
      requires RecvAtMost(recv, BufferLen - Max(|innerBuffer|, |outerBuffer|))
      modifies this`header, this`innerLeft, this`outerLeft, this`innerBuffer, this`outerBuffer
      modifies this`gotInnerEof, this`gotOuterEof, this`srcOpen, this`received
      ensures Valid()
      ensures status == if !src.read then Completed
        else if Max(old(|innerBuffer|), old(|outerBuffer|)) >= BufferLen then Raised(NoRoomLeft)
        else if recv.Failed? then Raised(RecvFailed)
        else Completed
      ensures if status.Completed? && src.read && !recv.WouldBlock? then
          && Reader() == SplitBytes(old(Reader()), Received(recv))
          && received == old(received) + Received(recv)
          && srcOpen == (old(srcOpen) && Received(recv) != [])
        else
          Reader() == old(Reader()) && received == old(received) && srcOpen == old(srcOpen)
    {
      if !src.read {
        return Completed;
      }
      var left := BufferLen - Max(|innerBuffer|, |outerBuffer|);
      if left <= 0 {
        return Raised(NoRoomLeft);
      }
      if recv.WouldBlock? {
        return Completed;
      } else if recv.Failed? {
        return Raised(RecvFailed);
      }
      Absorb(Received(recv));
      status := Completed;
    }

    /** What `_receive` does with the bytes read: an empty read closes the source. */
    method Absorb(data: Bytes)
      requires Valid()
      requires |data| <= BufferLen - Max(|innerBuffer|, |outerBuffer|)
      modifies this`header, this`innerLeft, this`outerLeft, this`innerBuffer, this`outerBuffer
      modifies this`gotInnerEof, this`gotOuterEof, this`srcOpen, this`received
      ensures Valid()
      ensures Reader() == SplitBytes(old(Reader()), data)
      ensures received == old(received) + data
      ensures srcOpen == (old(srcOpen) && data != [])
    {
      ghost var start, before := Reader(), received;
      if |data| == 0 {
        srcOpen := false;
      }
      Split(data);
      received := received + data;
      ReceivedKeepsValid(start, before, data);
    }

    /** The loop of `_receive` that sorts the bytes read. */
    method Split(data0: Bytes)
      requires FramerValid(Framer(header, innerLeft, outerLeft))
      modifies this`header, this`innerLeft, this`outerLeft, this`innerBuffer, this`outerBuffer
      modifies this`gotInnerEof, this`gotOuterEof
      ensures Reader() == SplitBytes(old(Reader()), data0)
    {
      var data := data0;
      while |data| > 0
        invariant FramerValid(Framer(header, innerLeft, outerLeft))
        invariant SplitBytes(Reader(), data) == SplitBytes(old(Reader()), data0)
        decreases |data|
      {
        if innerLeft != 0 {
          data := TakeInner(data);
        }
        if outerLeft != 0 {
          data := TakeOuter(data);
        }
        if innerLeft == 0 && outerLeft == 0 {
          data := TakeHeader(data);
        }
      }
    }

    /** A run of inner payload. */
    method TakeInner(data: Bytes) returns (rest: Bytes)
      requires FramerValid(Framer(header, innerLeft, outerLeft)) && innerLeft != 0
      modifies this`innerBuffer, this`innerLeft
      ensures FramerValid(Framer(header, innerLeft, outerLeft))
      ensures SplitBytes(Reader(), rest) == SplitBytes(old(Reader()), data)
      ensures |rest| <= |data| && (data != [] ==> |rest| < |data|)
    {
      var run := Min(innerLeft, |data|);
      SplitPrefix(Reader(), data, run);
      SplitInnerRun(Reader(), data[..run]);
      innerBuffer := innerBuffer + data[..run];
      innerLeft := innerLeft - run;
      rest := data[run..];
    }

    /** A run of outer payload. */
    method TakeOuter(data: Bytes) returns (rest: Bytes)
      requires FramerValid(Framer(header, innerLeft, outerLeft)) && outerLeft != 0
      modifies this`outerBuffer, this`outerLeft
      ensures FramerValid(Framer(header, innerLeft, outerLeft))
      ensures SplitBytes(Reader(), rest) == SplitBytes(old(Reader()), data)
      ensures |rest| <= |data| && (data != [] ==> |rest| < |data|)
    {
      var run := Min(outerLeft, |data|);
      SplitPrefix(Reader(), data, run);
      SplitOuterRun(Reader(), data[..run]);
      outerBuffer := outerBuffer + data[..run];
      outerLeft := outerLeft - run;
      rest := data[run..];
    }

    /** Header bytes, and the decision on the next chunk once four have arrived. */
    method TakeHeader(data: Bytes) returns (rest: Bytes)
      requires FramerValid(Framer(header, innerLeft, outerLeft)) && innerLeft == 0 && outerLeft == 0
      modifies this`header, this`innerLeft, this`outerLeft, this`gotInnerEof, this`gotOuterEof
      ensures FramerValid(Framer(header, innerLeft, outerLeft))
      ensures SplitBytes(Reader(), rest) == SplitBytes(old(Reader()), data)
      ensures |rest| <= |data| && (data != [] ==> |rest| < |data|)
    {
      var run := Min(U32Size - |header|, |data|);
      if run > 0 {
        SplitPrefix(Reader(), data, run);
        SplitHeaderRun(Reader(), data[..run]);
      }
      header := header + data[..run];
      rest := data[run..];
      if |header| == U32Size {
        ghost var mid := Reader();
        StartChunk();
        SplitEventFramer(old(Reader()), mid, HeaderDone(mid.framer.header).0, HeaderDone(mid.framer.header).1);
      }
    }

    /** A complete header: its top bit selects the stream, the rest is the length; length 0 is EOF. */
    method StartChunk()
      requires |header| == U32Size && innerLeft == 0 && outerLeft == 0
      modifies this`header, this`innerLeft, this`outerLeft, this`gotInnerEof, this`gotOuterEof
      ensures Reader() == SplitEvent(old(Reader()), HeaderDone(old(header)).0, HeaderDone(old(header)).1)
    {
      var v := Be32Value(header);
      header := [];
      if v >= InnerMask {
        innerLeft := v - InnerMask;
        if innerLeft == 0 {
          gotInnerEof := true;
        }
      } else {
        outerLeft := v;
        if outerLeft == 0 {
          gotOuterEof := true;
        }
      }
    }

    /** The invariant's stream relation survives appending `data` to what was received. */
    lemma ReceivedKeepsValid(start: SplitState, before: Bytes, data: Bytes)
      requires FramerValid(start.framer) && received == before + data
      requires SplitBytes(Fresh, before) == start.(inner := innerGone + start.inner, outer := outerGone + start.outer)
      requires Reader() == SplitBytes(start, data)
      ensures SplitBytes(Fresh, received) == Reader().(inner := innerGone + innerBuffer, outer := outerGone + outerBuffer)
      ensures |innerBuffer| <= |start.inner| + |data| && |outerBuffer| <= |start.outer| + |data|
    {
      SplitBytesAppend(Fresh, before, data);
      SplitBytesShift(start, data, innerGone, outerGone);
      SplitBytesGrowth(start, data);
    }

    /**
      `_check_shutdown`: a destination is shut down, once, when its stream has ended
      (the source closed or its EOF arrived) and its buffer is empty.
    */
    method CheckShutdown() returns (shutInner: bool, shutOuter: bool)
      requires Valid()
      modifies this`innerDstShutDown, this`outerDstShutDown
      ensures shutInner <==> !old(innerDstShutDown) && (!srcOpen || gotInnerEof) && innerBuffer == []
      ensures shutOuter <==> !old(outerDstShutDown) && (!srcOpen || gotOuterEof) && outerBuffer == []
      ensures innerDstShutDown == (old(innerDstShutDown) || shutInner)
      ensures outerDstShutDown == (old(outerDstShutDown) || shutOuter)
      ensures shutInner ==> innerGone == SplitBytes(Fresh, received).inner
      ensures shutOuter ==> outerGone == SplitBytes(Fresh, received).outer
    {
      shutInner, shutOuter := false, false;
      if (!srcOpen || gotInnerEof) && |innerBuffer| == 0 {
        if !innerDstShutDown {
          shutInner := true;
          innerDstShutDown := true;
        }
      }
      if (!srcOpen || gotOuterEof) && |outerBuffer| == 0 {
        if !outerDstShutDown {
          shutOuter := true;
          outerDstShutDown := true;
        }
      }
    }

    /**
      `_receive` when the source is reported readable only while there is room, as
      `_prepare_poll` asks: the only exception left is a failing `recv`.
    */
    method ReceivePolled(src: Flags, recv: Recv) returns (status: Status)
      requires Valid()
      requires src.read ==> Max(|innerBuffer|, |outerBuffer|) < BufferLen
      requires RecvAtMost(recv, BufferLen - Max(|innerBuffer|, |outerBuffer|))
      modifies this`header, this`innerLeft, this`outerLeft, this`innerBuffer, this`outerBuffer
      modifies this`gotInnerEof, this`gotOuterEof, this`srcOpen, this`received
      ensures Valid()
      ensures status.Raised? ==> src.read && recv.Failed? && status.fault == RecvFailed
    {
      status := Receive(src, recv);
    }

    /** `_handle_errors` then `_send`: what is left in each buffer before the receive. */
    method Transmit(src: Flags, innerDst: Flags, outerDst: Flags, innerCount: nat, outerCount: nat)
      requires Valid()
      requires Writable(innerDst) ==> innerCount <= |innerBuffer|
      requires Writable(outerDst) ==> outerCount <= |outerBuffer|
      modifies this`srcOpen, this`innerBuffer, this`outerBuffer, this`innerBufferDropped
      modifies this`outerBufferDropped, this`innerGone, this`outerGone, this`innerSent, this`outerSent
      ensures Valid()
      ensures |innerBuffer| == LengthAfterSend(old(innerBuffer), innerDst, innerCount)
      ensures |outerBuffer| == LengthAfterSend(old(outerBuffer), outerDst, outerCount)
    {
      HandleErrors(src, innerDst, outerDst);
      Send(innerDst, innerCount, outerDst, outerCount);
    }

    /**
      One pass of the forwarding loop over this buffer. When poll reports only what
      `_prepare_poll` asked for, the receive always finds room: the only exception left
      is a failing `recv`.
    */
    method Round(src: Flags, innerDst: Flags, outerDst: Flags, recv: Recv, innerCount: nat, outerCount: nat)
      returns (status: Status, shutInner: bool, shutOuter: bool)
      requires Valid()
      requires src.read ==> PreparePoll().srcRead
      requires Writable(innerDst) ==> innerCount <= |innerBuffer|
      requires Writable(outerDst) ==> outerCount <= |outerBuffer|
      requires RecvAtMost(recv, BufferLen -
        Max(LengthAfterSend(innerBuffer, innerDst, innerCount), LengthAfterSend(outerBuffer, outerDst, outerCount)))
      modifies this
      ensures Valid()
      ensures status.Raised? ==> src.read && recv.Failed? && status.fault == RecvFailed
    {
      Transmit(src, innerDst, outerDst, innerCount, outerCount);
      status := ReceivePolled(src, recv);
      shutInner, shutOuter := CheckShutdown();
    }
  }
}
