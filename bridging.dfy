// `_InnerBridgingBuffer`: while the inner TLS session is handed over, reads the chunked
// stream from one side and forwards its inner chunks, headers included, to the other
// side unchanged, keeping the payload of outer chunks aside for later.

module Bridging {
  import opened Wire
  import opened Chunks
  import opened Poll
  import opened Splitting

  /**
    The parse state of the bridging buffer, the bytes waiting to be forwarded, the
    outer payload kept aside, and the two flags an inner EOF clears and sets.
  */
  datatype BridgeState = BridgeState(
    framer: Framer,
    buffer: Bytes,
    outerData: Bytes,
    srcOpen: bool,
    dstShutDown: bool)

  /** A new bridging buffer: it starts out forwarding `inner`, the inner chunks read earlier. */
  function Start(inner: Bytes): BridgeState {
    BridgeState(Idle, inner, [], true, false)
  }

  /**
    What an event read from the stream does: inner payload and complete inner headers
    are forwarded, outer payload is kept aside, and an inner chunk of length 0 ends
    the forwarding. An outer header of length 0 is not treated as EOF.
  */
  function BridgeEvent(s: BridgeState, f: Framer, e: Event): BridgeState {
    match e
    case InnerByte(b) => s.(framer := f, buffer := s.buffer + [b])
    case OuterByte(b) => s.(framer := f, outerData := s.outerData + [b])
    case HeaderByte => s.(framer := f)
    case InnerHeader(h, n) =>
      s.(framer := f, buffer := s.buffer + h, srcOpen := s.srcOpen && n != 0, dstShutDown := s.dstShutDown || n == 0)
    case OuterHeader(_) => s.(framer := f)
  }

  function BridgeByte(s: BridgeState, b: byte): (r: BridgeState)
    requires FramerValid(s.framer)
    ensures FramerValid(r.framer)
  {
    var fe := FrameByte(s.framer, b);
    BridgeEvent(s, fe.0, fe.1)
  }

  /** The bridging buffer's reference behaviour: the bytes handled one at a time. */
  function BridgeBytes(s: BridgeState, data: Bytes): (r: BridgeState)
    requires FramerValid(s.framer)
    ensures FramerValid(r.framer)
    decreases |data|
  {
    if data == [] then s else BridgeBytes(BridgeByte(s, data[0]), data[1..])
  }

  /** An event replaces the framer, so the framer it started from does not matter. */
  lemma BridgeEventFramer(s: BridgeState, t: BridgeState, f: Framer, e: Event)
    requires s.(framer := Idle) == t.(framer := Idle)
    ensures BridgeEvent(s, f, e) == BridgeEvent(t, f, e)
  {
    assert s.buffer == t.buffer && s.outerData == t.outerData;
    assert s.srcOpen == t.srcOpen && s.dstShutDown == t.dstShutDown;
  }

  /** Receiving the stream in two pieces has the same effect as receiving it at once. */
  lemma {:induction false} BridgeBytesAppend(s: BridgeState, a: Bytes, b: Bytes)
    requires FramerValid(s.framer)
    ensures BridgeBytes(s, a + b) == BridgeBytes(BridgeBytes(s, a), b)
    decreases |a|
  {
    if a == [] {
      assert a + b == b;
    } else {
      assert (a + b)[0] == a[0] && (a + b)[1..] == a[1..] + b;
      BridgeBytesAppend(BridgeByte(s, a[0]), a[1..], b);
    }
  }

  lemma BridgePrefix(s: BridgeState, data: Bytes, k: nat)
    requires FramerValid(s.framer) && k <= |data|
    ensures BridgeBytes(s, data) == BridgeBytes(BridgeBytes(s, data[..k]), data[k..])
  {
    assert data == data[..k] + data[k..];
    BridgeBytesAppend(s, data[..k], data[k..]);
  }

  /** Payload bytes of an inner chunk in progress are forwarded. */
  lemma {:induction false} BridgeInnerRun(s: BridgeState, run: Bytes)
    requires FramerValid(s.framer) && |run| <= s.framer.innerLeft
    ensures BridgeBytes(s, run) ==
      s.(framer := s.framer.(innerLeft := s.framer.innerLeft - |run|), buffer := s.buffer + run)
    decreases |run|
  {
    if run != [] {
      var s' := BridgeByte(s, run[0]);
      assert s' == s.(framer := s.framer.(innerLeft := s.framer.innerLeft - 1), buffer := s.buffer + [run[0]]);
      BridgeInnerRun(s', run[1..]);
      assert s.buffer + [run[0]] + run[1..] == s.buffer + run;
    }
  }

  /** Payload bytes of an outer chunk in progress are kept aside. */
  lemma {:induction false} BridgeOuterRun(s: BridgeState, run: Bytes)
    requires FramerValid(s.framer) && s.framer.innerLeft == 0 && |run| <= s.framer.outerLeft
    ensures BridgeBytes(s, run) ==
      s.(framer := s.framer.(outerLeft := s.framer.outerLeft - |run|), outerData := s.outerData + run)
    decreases |run|
  {
    if run != [] {
      var s' := BridgeByte(s, run[0]);
      assert s' == s.(framer := s.framer.(outerLeft := s.framer.outerLeft - 1), outerData := s.outerData + [run[0]]);
      BridgeOuterRun(s', run[1..]);
      assert s.outerData + [run[0]] + run[1..] == s.outerData + run;
    }
  }

  /** Header bytes are collected; the fourth one decides the next chunk. */
  lemma {:induction false} BridgeHeaderRun(s: BridgeState, run: Bytes)
    requires FramerValid(s.framer) && s.framer.innerLeft == 0 && s.framer.outerLeft == 0
    requires 0 < |run| && |s.framer.header| + |run| <= U32Size
    ensures var h := s.framer.header + run;
      BridgeBytes(s, run) ==
        if |h| < U32Size then s.(framer := s.framer.(header := h))
        else BridgeEvent(s, HeaderDone(h).0, HeaderDone(h).1)
    decreases |run|
  {
    var h := s.framer.header + run;
    if |run| > 1 {
      var s' := BridgeByte(s, run[0]);
      assert s' == s.(framer := s.framer.(header := s.framer.header + [run[0]]));
      BridgeHeaderRun(s', run[1..]);
      assert s.framer.header + [run[0]] + run[1..] == h;
      if |h| == U32Size {
        BridgeEventFramer(s', s, HeaderDone(h).0, HeaderDone(h).1);
      }
    } else {
      assert h == s.framer.header + [run[0]];
    }
  }

  // ---------------------------------------------------------------------------
  // the partner: the stream a combining buffer writes

  /** The header of a chunk read from an idle reader: an inner header is forwarded. */
  lemma BridgeHeaderOfChunk(s: BridgeState, c: Chunk)
    requires s.framer == Idle && Fits(c)
    ensures BridgeBytes(s, Be32(HeaderValue(c))) ==
      if c.Inner? then
        s.(framer := Framer([], |c.data|, 0), buffer := s.buffer + Be32(HeaderValue(c)),
           srcOpen := s.srcOpen && |c.data| != 0, dstShutDown := s.dstShutDown || |c.data| == 0)
      else s.(framer := Framer([], 0, |c.data|))
  {
    BridgeHeaderRun(s, Be32(HeaderValue(c)));
    HeaderDoneOfChunk(c);
  }

  /** An inner chunk is forwarded as it is, an outer one's payload kept aside; an inner EOF ends the forwarding. */
  function ChunkEffect(s: BridgeState, c: Chunk): BridgeState
    requires Fits(c)
  {
    s.(buffer := s.buffer + (if c.Inner? then Encode(c) else []),
       outerData := s.outerData + (if c.Outer? then c.data else []),
       srcOpen := s.srcOpen && c != Inner([]),
       dstShutDown := s.dstShutDown || c == Inner([]))
  }

  /** A whole chunk read from an idle reader has its effect and leaves the reader idle. */
  lemma BridgeChunk(s: BridgeState, c: Chunk)
    requires s.framer == Idle && Fits(c)
    ensures BridgeBytes(s, Encode(c)) == ChunkEffect(s, c)
  {
    var e := Encode(c);
    assert e[..U32Size] == Be32(HeaderValue(c)) && e[U32Size..] == c.data;
    BridgePrefix(s, e, U32Size);
    BridgeHeaderOfChunk(s, c);
    if c.Inner? {
      BridgeInnerPayload(s, c);
    } else {
      BridgeOuterRun(s.(framer := Framer([], 0, |c.data|)), c.data);
    }
  }

  lemma BridgeInnerPayload(s: BridgeState, c: Chunk)
    requires s.framer == Idle && Fits(c) && c.Inner?
    ensures var h := Be32(HeaderValue(c));
      var s1 := s.(framer := Framer([], |c.data|, 0), buffer := s.buffer + h,
        srcOpen := s.srcOpen && |c.data| != 0, dstShutDown := s.dstShutDown || |c.data| == 0);
      BridgeBytes(s1, c.data) ==
        s.(buffer := s.buffer + Encode(c), srcOpen := s.srcOpen && c != Inner([]), dstShutDown := s.dstShutDown || c == Inner([]))
  {
    var h := Be32(HeaderValue(c));
    var s1 := s.(framer := Framer([], |c.data|, 0), buffer := s.buffer + h,
      srcOpen := s.srcOpen && |c.data| != 0, dstShutDown := s.dstShutDown || |c.data| == 0);
    BridgeInnerRun(s1, c.data);
    assert s.buffer + h + c.data == s.buffer + Encode(c);
    assert (|c.data| == 0) == (c == Inner([]));
  }

  /** The state after reading `cs` from an idle reader: the effects of its chunks, in order. */
  function AfterBridging(s: BridgeState, cs: seq<Chunk>): BridgeState
    requires AllFit(cs)
  {
    if cs == [] then s
    else
      assert AllFit(cs[..|cs| - 1]);
      ChunkEffect(AfterBridging(s, cs[..|cs| - 1]), cs[|cs| - 1])
  }

  /** Reading the encoding of a sequence of chunks from an idle reader has the effects of its chunks. */
  lemma {:induction false} BridgeChunks(s: BridgeState, cs: seq<Chunk>)
    requires s.framer == Idle && AllFit(cs)
    ensures BridgeBytes(s, EncodeAll(cs)) == AfterBridging(s, cs)
    ensures AfterBridging(s, cs).framer == Idle
  {
    if cs != [] {
      var init := cs[..|cs| - 1];
      var c := cs[|cs| - 1];
      assert AllFit(init);
      BridgeBytesAppend(s, EncodeAll(init), Encode(c));
      BridgeChunks(s, init);
      BridgeChunk(AfterBridging(s, init), c);
    }
  }

  /** The bytes forwarded are exactly the inner chunks, in order, headers included. */
  lemma {:induction false} AfterBridgingBuffer(s: BridgeState, cs: seq<Chunk>)
    requires AllFit(cs)
    ensures AllFit(InnerChunks(cs))
    ensures AfterBridging(s, cs).buffer == s.buffer + EncodeAll(InnerChunks(cs))
  {
    InnerChunksAllFit(cs);
    if cs != [] {
      var init := cs[..|cs| - 1];
      var c := cs[|cs| - 1];
      assert AllFit(init);
      AfterBridgingBuffer(s, init);
      InnerChunksStep(cs);
      var bi := EncodeAll(InnerChunks(init));
      var bx := if c.Inner? then Encode(c) else [];
      AppendAssoc(s.buffer, bi, bx);
    }
  }

  /** The payload kept aside is exactly the outer payload, in order. */
  lemma {:induction false} AfterBridgingOuter(s: BridgeState, cs: seq<Chunk>)
    requires AllFit(cs)
    ensures AfterBridging(s, cs).outerData == s.outerData + OuterPayload(cs)
  {
    if cs != [] {
      var init := cs[..|cs| - 1];
      var c := cs[|cs| - 1];
      assert AllFit(init);
      AfterBridgingOuter(s, init);
      var ox := if c.Outer? then c.data else [];
      AppendAssoc(s.outerData, OuterPayload(init), ox);
    }
  }

  /** The forwarding ends exactly when an inner EOF was among the chunks. */
  lemma {:induction false} AfterBridgingFlags(s: BridgeState, cs: seq<Chunk>)
    requires AllFit(cs)
    ensures AfterBridging(s, cs).srcOpen == (s.srcOpen && !HasInnerEof(cs))
    ensures AfterBridging(s, cs).dstShutDown == (s.dstShutDown || HasInnerEof(cs))
  {
    if cs == [] {
      assert !HasInnerEof(cs);
    } else {
      var init := cs[..|cs| - 1];
      assert AllFit(init);
      AfterBridgingFlags(s, init);
      EofOfAppend(init, cs[|cs| - 1]);
      assert init + [cs[|cs| - 1]] == cs;
    }
  }

  /** The inner chunks carry all of the inner payload and nothing of the outer payload. */
  lemma {:induction false} InnerChunksPayload(cs: seq<Chunk>)
    ensures InnerPayload(InnerChunks(cs)) == InnerPayload(cs)
    ensures OuterPayload(InnerChunks(cs)) == []
  {
    if cs != [] {
      var init := cs[..|cs| - 1];
      var c := cs[|cs| - 1];
      var r := InnerChunks(cs);
      var ic := InnerChunks(init);
      InnerChunksPayload(init);
      if c.Inner? {
        assert r == ic + [c] && r[..|r| - 1] == ic && r[|r| - 1] == c;
      } else {
        assert r == ic;
      }
    }
  }

  /** The inner chunks carry the inner EOF if there is one, and no outer EOF. */
  lemma {:induction false} InnerChunksEof(cs: seq<Chunk>)
    ensures HasInnerEof(InnerChunks(cs)) <==> HasInnerEof(cs)
    ensures !HasOuterEof(InnerChunks(cs))
  {
    var r := InnerChunks(cs);
    if cs == [] {
      assert !HasInnerEof(cs);
    } else {
      var init := cs[..|cs| - 1];
      var c := cs[|cs| - 1];
      var ic := InnerChunks(init);
      InnerChunksEof(init);
      EofOfAppend(init, c);
      assert init + [c] == cs;
      if c.Inner? {
        assert r == ic + [c];
        EofOfAppend(ic, c);
      } else {
        assert r == ic;
      }
    }
    assert !HasOuterEof(r) by {
      forall i | 0 <= i < |r| ensures r[i] != Outer([]) {
        assert r[i].Inner?;
      }
    }
  }

  /**
    What a bridging buffer forwards, read by a splitting buffer, yields the inner
    payload and the inner EOF of the original stream and no outer data at all.
  */
  lemma ForwardedInnerOnly(cs: seq<Chunk>)
    requires AllFit(cs)
    ensures AllFit(InnerChunks(cs))
    ensures SplitBytes(Fresh, EncodeAll(InnerChunks(cs))) ==
      SplitState(Idle, InnerPayload(cs), [], HasInnerEof(cs), false)
  {
    InnerChunksAllFit(cs);
    SplitChunks(Fresh, InnerChunks(cs));
    InnerChunksPayload(cs);
    InnerChunksEof(cs);
  }

  // ---------------------------------------------------------------------------
  // the reading does not depend on what was buffered before

  /** A state with nothing buffered and neither flag changed. */
  function Blank(f: Framer): BridgeState {
    BridgeState(f, [], [], true, false)
  }

  /** The state `s` followed by the effect `c` of some bytes read from a blank state. */
  function Then(s: BridgeState, c: BridgeState): BridgeState {
    BridgeState(c.framer, s.buffer + c.buffer, s.outerData + c.outerData,
      s.srcOpen && c.srcOpen, s.dstShutDown || c.dstShutDown)
  }

  lemma ThenAssociative(s: BridgeState, c: BridgeState, d: BridgeState)
    ensures Then(Then(s, c), d) == Then(s, Then(c, d))
  {
    AppendAssoc(s.buffer, c.buffer, d.buffer);
    AppendAssoc(s.outerData, c.outerData, d.outerData);
  }

  /** An event adds to any state what it adds to a blank one. */
  lemma BridgeEventShape(s: BridgeState, t: BridgeState, f: Framer, e: Event)
    requires t == Blank(s.framer)
    ensures BridgeEvent(s, f, e) == Then(s, BridgeEvent(t, f, e))
  {
    match e
    case InnerByte(x) =>
      assert [] + [x] == [x];
    case OuterByte(x) =>
      assert [] + [x] == [x];
    case InnerHeader(h, _) =>
      assert [] + h == h;
    case HeaderByte =>
      assert s.buffer + [] == s.buffer && s.outerData + [] == s.outerData;
    case OuterHeader(_) =>
      assert s.buffer + [] == s.buffer && s.outerData + [] == s.outerData;
  }

  /** One byte read adds what reading it from a blank state with the same framer produces. */
  lemma BridgeByteShape(s: BridgeState, b: byte)
    requires FramerValid(s.framer)
    ensures BridgeByte(s, b) == Then(s, BridgeByte(Blank(s.framer), b))
  {
    var fe := FrameByte(s.framer, b);
    BridgeEventShape(s, Blank(s.framer), fe.0, fe.1);
  }

  /**
    Reading bytes adds to the two buffers and to the flags what reading them from a
    blank state with the same framer would produce.
  */
  lemma {:induction false} BridgeBytesShape(s: BridgeState, data: Bytes)
    requires FramerValid(s.framer)
    ensures BridgeBytes(s, data) == Then(s, BridgeBytes(Blank(s.framer), data))
    decreases |data|
  {
    if data == [] {
      assert s.buffer + [] == s.buffer && s.outerData + [] == s.outerData;
    } else {
      var rest := data[1..];
      var c1 := BridgeByte(Blank(s.framer), data[0]);
      var s1 := BridgeByte(s, data[0]);
      var x := BridgeBytes(Blank(c1.framer), rest);
      BridgeByteShape(s, data[0]);
      BridgeBytesShape(s1, rest);
      BridgeBytesShape(c1, rest);
      ThenAssociative(s, c1, x);
      assert BridgeBytes(s, data) == BridgeBytes(s1, rest);
      assert BridgeBytes(Blank(s.framer), data) == BridgeBytes(c1, rest);
    }
  }

  /** Each byte read adds at most one byte to the two buffers and the header held together. */
  lemma {:induction false} BridgeBytesGrowth(s: BridgeState, data: Bytes)
    requires FramerValid(s.framer)
    ensures var r := BridgeBytes(s, data);
      && s.buffer <= r.buffer && s.outerData <= r.outerData
      && |r.buffer| + |r.outerData| + |r.framer.header| <= |s.buffer| + |s.outerData| + |s.framer.header| + |data|
    decreases |data|
  {
    if data != [] {
      BridgeBytesGrowth(BridgeByte(s, data[0]), data[1..]);
    }
  }

  // ---------------------------------------------------------------------------
  // the buffer

  /** What `_prepare_poll` asks poll to watch. */
  datatype BridgeInterest = BridgeInterest(srcRead: bool, dstWrite: bool)

  /**
    `_InnerBridgingBuffer`. The sockets are replaced by the poll flags and the transfer
    outcomes each method is given; the ghost fields record the history of the streams.
  */
  class InnerBridgingBuffer {
    var header: Bytes
    var innerLeft: nat
    var outerLeft: nat
    var buffer: Bytes
    var bufferDropped: bool
    var srcOpen: bool
    var dstShutDown: bool
    var outerData: Bytes

    /** The inner chunks the buffer was created with. */
    ghost var initial: Bytes
    /** Everything received from the source, in order. */
    ghost var received: Bytes
    /** The bytes that have left the buffer, sent or dropped, in order. */
    ghost var gone: Bytes
    /** The bytes handed to the destination socket, in order. */
    ghost var sent: Bytes
    /** The outer payload handed out by `pending_outer_data`, in order. */
    ghost var taken: Bytes
    /** Whether `_check_shutdown` appended an inner EOF of its own. */
    ghost var eofAdded: bool

    function Reader(): BridgeState
      reads this`header, this`innerLeft, this`outerLeft, this`buffer, this`outerData
      reads this`srcOpen, this`dstShutDown
    {
      BridgeState(Framer(header, innerLeft, outerLeft), buffer, outerData, srcOpen, dstShutDown)
    }

    /** The reference reading of everything received, from the initial state. */
    ghost function History(): BridgeState
      reads this`initial, this`received
    {
      BridgeBytes(Start(initial), received)
    }

    /**
      The parse state and the outer payload are those of the reference reading; the
      source is closed and the destination shut down at least when the reference says
      so, and only for these reasons; until data is dropped, what left the buffer is
      what was sent.
    */
    ghost predicate Valid()
      reads this`header, this`innerLeft, this`outerLeft, this`outerData, this`srcOpen, this`dstShutDown
      reads this`initial, this`received, this`taken, this`eofAdded, this`bufferDropped, this`sent, this`gone
    {
      var h := History();
      && h.framer == Framer(header, innerLeft, outerLeft)
      && h.outerData == taken + outerData
      && (!h.srcOpen ==> !srcOpen)
      && (h.dstShutDown ==> dstShutDown)
      && (dstShutDown ==> h.dstShutDown || eofAdded)
      && (eofAdded ==> !srcOpen && dstShutDown)
      && (!bufferDropped ==> sent == gone)
    }

    /**
      The bytes that entered the buffer are the initial inner chunks and the inner
      chunks received, followed by the buffer's own inner EOF if it added one, which
      it did only when no inner EOF had been received.
    */
    ghost predicate Faithful()
      reads this`buffer, this`gone, this`initial, this`received, this`eofAdded
    {
      && gone + buffer == History().buffer + (if eofAdded then InnerEof() else [])
      && (eofAdded ==> !History().dstShutDown)
    }

    constructor (innerPackets: Bytes)
      ensures Valid() && Faithful()
      ensures Reader() == Start(innerPackets) && !bufferDropped
      ensures initial == innerPackets && received == [] && sent == [] && taken == [] && !eofAdded
    {
      header, innerLeft, outerLeft := [], 0, 0;
      buffer, bufferDropped := innerPackets, false;
      srcOpen, dstShutDown := true, false;
      outerData := [];
      initial, received, gone, sent, taken, eofAdded := innerPackets, [], [], [], [], false;
    }

    /** `pending_outer_data`: hands out the outer payload kept aside so far. */
    method PendingOuterData() returns (res: Bytes)
      requires Valid()
      modifies this`outerData, this`taken
      ensures Valid()
      ensures res == old(outerData) && outerData == []
      ensures taken == old(taken) + res
    {
      res := outerData;
      taken := taken + res;
      outerData := [];
    }

    /** `_active`: some work is still possible. */
    predicate Active()
      reads this`srcOpen, this`buffer
    {
      srcOpen || |buffer| > 0
    }

    /** `_prepare_poll`; whenever the buffer is active, something is watched. */
    function PreparePoll(): (r: BridgeInterest)
      reads this`srcOpen, this`buffer
      ensures Active() ==> r.srcRead || r.dstWrite
      ensures r.srcRead <==> srcOpen && |buffer| < BufferLen
      ensures r.dstWrite <==> |buffer| > 0
    {
      BridgeInterest(srcOpen && |buffer| < BufferLen, |buffer| > 0)
    }

    /**
      `_handle_errors`: a source with a problem and nothing to read is closed; a
      destination with a problem loses the buffer.
    */
    method HandleErrors(src: Flags, dst: Flags)
      requires Valid()
      modifies this`srcOpen, this`buffer, this`bufferDropped, this`gone
      ensures Valid()
      ensures old(Faithful()) ==> Faithful()
      ensures srcOpen == (old(srcOpen) && !ProblemWithoutRead(src))
      ensures buffer == (if dst.problem then [] else old(buffer))
      ensures bufferDropped == (old(bufferDropped) || (dst.problem && old(buffer) != []))
      ensures gone == old(gone) + (if dst.problem then old(buffer) else [])
    {
      if ProblemWithoutRead(src) {
        srcOpen := false;
      }
      if dst.problem && |buffer| > 0 {
        bufferDropped := true;
        gone := gone + buffer;
        buffer := [];
      }
    }

    /** `_send`: a writable destination takes the first `count` bytes. */
    method Send(dst: Flags, count: nat)
      requires Valid()
      requires Writable(dst) ==> count <= |buffer|
      modifies this`buffer, this`sent, this`gone
      ensures Valid()
      ensures old(Faithful()) ==> Faithful()
      ensures buffer == if Writable(dst) then old(buffer)[count..] else old(buffer)
      ensures sent == old(sent) + if Writable(dst) then old(buffer)[..count] else []
      ensures gone == old(gone) + if Writable(dst) then old(buffer)[..count] else []
    {
      if Writable(dst) {
        var b := buffer;
        AppendAssoc(gone, b[..count], b[count..]);
        assert b[..count] + b[count..] == b;
        sent := sent + b[..count];
        gone := gone + b[..count];
        buffer := b[count..];
      }
    }

    /**
      `_receive`: read at most the room left in the buffer and sort the bytes read,
      chunk piece by chunk piece. A buffer already full is an error.
    */
    method Receive(src: Flags, recv: Recv) returns (status: Status)
      requires Valid()
      requires RecvAtMost(recv, BufferLen - |buffer|)
      modifies this`header, this`innerLeft, this`outerLeft, this`buffer, this`outerData
      modifies this`srcOpen, this`dstShutDown, this`received
      ensures Valid()
      ensures old(Faithful()) && !eofAdded ==> Faithful()
      ensures status == if !src.read then Completed
        else if old(|buffer|) >= BufferLen then Raised(BufferFull)
        else if recv.Failed? then Raised(RecvFailed)
        else Completed
      ensures if status.Completed? && src.read && !recv.WouldBlock? then
          && Reader() == BridgeBytes(old(Reader()).(srcOpen := old(srcOpen) && Received(recv) != []), Received(recv))
          && received == old(received) + Received(recv)
        else
          Reader() == old(Reader()) && received == old(received)
    {
      if !src.read {
        return Completed;
      }
      if |buffer| >= BufferLen {
        return Raised(BufferFull);
      }
      if recv.WouldBlock? {
        return Completed;
      } else if recv.Failed? {
        return Raised(RecvFailed);
      }
      Absorb(Received(recv));
      status := Completed;
    }

    /** What `_receive` does with the bytes read: an empty read closes the source. */
    method Absorb(data: Bytes)
      requires Valid()
      modifies this`header, this`innerLeft, this`outerLeft, this`buffer, this`outerData
      modifies this`srcOpen, this`dstShutDown, this`received
      ensures Valid()
      ensures old(Faithful()) && !eofAdded ==> Faithful()
      ensures Reader() == BridgeBytes(old(Reader()).(srcOpen := old(srcOpen) && data != []), data)
      ensures received == old(received) + data
    {
      ghost var h, before := History(), received;
      ghost var faithful := Faithful();
      if |data| == 0 {
        srcOpen := false;
      }
      ghost var start := Reader();
      Split(data);
      received := received + data;
      ReceivedKeepsValid(h, start, before, data, faithful && !eofAdded);
    }

    /** The loop of `_receive` that sorts the bytes read. */
    method Split(data0: Bytes)
      requires FramerValid(Framer(header, innerLeft, outerLeft))
      modifies this`header, this`innerLeft, this`outerLeft, this`buffer, this`outerData
      modifies this`srcOpen, this`dstShutDown
      ensures Reader() == BridgeBytes(old(Reader()), data0)
    {
      var data := data0;
      while |data| > 0
        invariant FramerValid(Framer(header, innerLeft, outerLeft))
        invariant BridgeBytes(Reader(), data) == BridgeBytes(old(Reader()), data0)
        decreases |data|
      {
        if innerLeft != 0 {
          data := TakeInner(data);
        }
        if outerLeft != 0 {
          data := TakeOuter(data);
        }
        if innerLeft == 0 && outerLeft == 0 {
          data := TakeHeader(data);
        }
      }
    }

    /** A run of inner payload, forwarded. */
    method TakeInner(data: Bytes) returns (rest: Bytes)
      requires FramerValid(Framer(header, innerLeft, outerLeft)) && innerLeft != 0
      modifies this`buffer, this`innerLeft
      ensures FramerValid(Framer(header, innerLeft, outerLeft))
      ensures BridgeBytes(Reader(), rest) == BridgeBytes(old(Reader()), data)
      ensures |rest| <= |data| && (data != [] ==> |rest| < |data|)
    {
      var run := Min(innerLeft, |data|);
      BridgePrefix(Reader(), data, run);
      BridgeInnerRun(Reader(), data[..run]);
      buffer := buffer + data[..run];
      innerLeft := innerLeft - run;
      rest := data[run..];
    }

    /** A run of outer payload, kept aside. */
    method TakeOuter(data: Bytes) returns (rest: Bytes)
      requires FramerValid(Framer(header, innerLeft, outerLeft)) && outerLeft != 0
      modifies this`outerData, this`outerLeft
      ensures FramerValid(Framer(header, innerLeft, outerLeft))
      ensures BridgeBytes(Reader(), rest) == BridgeBytes(old(Reader()), data)
      ensures |rest| <= |data| && (data != [] ==> |rest| < |data|)
    {
      var run := Min(outerLeft, |data|);
      BridgePrefix(Reader(), data, run);
      BridgeOuterRun(Reader(), data[..run]);
      outerData := outerData + data[..run];
      outerLeft := outerLeft - run;
      rest := data[run..];
    }

    /** Header bytes, and the decision on the next chunk once four have arrived. */
    method TakeHeader(data: Bytes) returns (rest: Bytes)
      requires FramerValid(Framer(header, innerLeft, outerLeft)) && innerLeft == 0 && outerLeft == 0
      modifies this`header, this`innerLeft, this`outerLeft, this`buffer, this`srcOpen, this`dstShutDown
      ensures FramerValid(Framer(header, innerLeft, outerLeft))
      ensures BridgeBytes(Reader(), rest) == BridgeBytes(old(Reader()), data)
      ensures |rest| <= |data| && (data != [] ==> |rest| < |data|)
    {
      var run := Min(U32Size - |header|, |data|);
      if run > 0 {
        BridgePrefix(Reader(), data, run);
        BridgeHeaderRun(Reader(), data[..run]);
      }
      header := header + data[..run];
      rest := data[run..];
      if |header| == U32Size {
        ghost var mid := Reader();
        StartChunk();
        BridgeEventFramer(old(Reader()), mid, HeaderDone(mid.framer.header).0, HeaderDone(mid.framer.header).1);
      }
    }

    /**
      A complete header. An inner header is forwarded and starts an inner chunk; an
      inner length of 0 is the inner EOF, which closes the source and counts as the
      destination's shutdown. An outer header only starts an outer chunk.
    */
    method StartChunk()
      requires |header| == U32Size && innerLeft == 0 && outerLeft == 0
      modifies this`header, this`innerLeft, this`outerLeft, this`buffer, this`srcOpen, this`dstShutDown
      ensures Reader() == BridgeEvent(old(Reader()), HeaderDone(old(header)).0, HeaderDone(old(header)).1)
    {
      var h := header;
      var v := Be32Value(h);
      if v >= InnerMask {
        buffer := buffer + h;
        innerLeft := v - InnerMask;
        if innerLeft == 0 {
          srcOpen := false;
          dstShutDown := true;
        }
      } else {
        outerLeft := v;
      }
      header := [];
    }

    /** The invariant survives appending `data` to what was received. */
    lemma ReceivedKeepsValid(h: BridgeState, start: BridgeState, before: Bytes, data: Bytes, faithful: bool)
      requires FramerValid(start.framer)
      requires received == before + data && h == BridgeBytes(Start(initial), before)
      requires h.framer == start.framer && h.outerData == taken + start.outerData
      requires (!h.srcOpen ==> !start.srcOpen) && (h.dstShutDown ==> start.dstShutDown)
      requires start.dstShutDown ==> h.dstShutDown || eofAdded
      requires eofAdded ==> !start.srcOpen && start.dstShutDown
      requires !bufferDropped ==> sent == gone
      requires faithful ==> gone + start.buffer == h.buffer && !eofAdded
      requires Reader() == BridgeBytes(start, data)
      ensures Valid()
      ensures faithful ==> Faithful()
    {
      BridgeBytesAppend(Start(initial), before, data);
      BridgeBytesShape(start, data);
      BridgeBytesShape(h, data);
      var c := BridgeBytes(Blank(h.framer), data);
      AppendAssoc(taken, start.outerData, c.outerData);
      AppendAssoc(gone, start.buffer, c.buffer);
    }

    /**
      `_check_shutdown`: once inactive, the buffer appends one inner EOF for the
      destination, unless it is already shut down, which is the case when an inner EOF
      was forwarded from the stream.
    */
    method CheckShutdown() returns (appended: bool)
      requires Valid()
      modifies this`buffer, this`dstShutDown, this`eofAdded
      ensures Valid()
      ensures old(Faithful()) ==> Faithful()
      ensures appended <==> !old(Active()) && !old(dstShutDown)
      ensures buffer == old(buffer) + (if appended then InnerEof() else [])
      ensures dstShutDown == (old(dstShutDown) || appended)
      ensures eofAdded == (old(eofAdded) || appended)
      ensures appended ==> !old(eofAdded) && !History().dstShutDown
    {
      appended := false;
      if !Active() && !dstShutDown {
        assert buffer == [] && !eofAdded;
        assert gone + buffer == gone;
        assert !History().dstShutDown;
        buffer := buffer + InnerEof();
        dstShutDown := true;
        eofAdded := true;
        appended := true;
      }
    }

    /**
      After the stream `cs` was received: the outer payload handed out and still kept
      is the stream's outer payload; the bytes that entered the buffer are the initial
      inner chunks, the stream's inner chunks and at most one inner EOF of the buffer's
      own, added only when the stream had none, and the destination is shut down only
      once an inner EOF is among them.
    */
    lemma ForwardedStream(cs: seq<Chunk>)
      requires Valid() && Faithful()
      requires AllFit(cs) && received == EncodeAll(cs)
      ensures AllFit(InnerChunks(cs))
      ensures taken + outerData == OuterPayload(cs)
      ensures gone + buffer == initial + EncodeAll(InnerChunks(cs)) + (if eofAdded then InnerEof() else [])
      ensures eofAdded ==> !HasInnerEof(cs)
      ensures dstShutDown ==> HasInnerEof(cs) || eofAdded
    {
      BridgeChunks(Start(initial), cs);
      AfterBridgingBuffer(Start(initial), cs);
      AfterBridgingOuter(Start(initial), cs);
      AfterBridgingFlags(Start(initial), cs);
    }

    /** `_handle_errors` then `_send`. */
    method Transmit(src: Flags, dst: Flags, count: nat)
      requires Valid()
      requires Writable(dst) ==> count <= |buffer|
      modifies this`srcOpen, this`buffer, this`bufferDropped, this`gone, this`sent
      ensures Valid()
      ensures old(Faithful()) ==> Faithful()
      ensures srcOpen == (old(srcOpen) && !ProblemWithoutRead(src))
      ensures |buffer| == LengthAfterSend(old(buffer), dst, count)
    {
      HandleErrors(src, dst);
      Send(dst, count);
    }

    /**
      One pass of the forwarding loop over this buffer. When poll reports only what
      `_prepare_poll` asked for, the buffer is never found full and no data arrives
      after the buffer's own EOF: the only exception left is a failing `recv`.
    */
    method Round(src: Flags, dst: Flags, recv: Recv, count: nat) returns (status: Status, appended: bool)
      requires Valid()
      requires src.read ==> PreparePoll().srcRead
      requires Writable(dst) ==> count <= |buffer|
      requires RecvAtMost(recv, BufferLen - LengthAfterSend(buffer, dst, count))
      modifies this
      ensures Valid()
      ensures old(Faithful()) ==> Faithful()
      ensures status.Raised? ==> src.read && recv.Failed? && status.fault == RecvFailed
    {
      Transmit(src, dst, count);
      status := Receive(src, recv);
      appended := CheckShutdown();
    }
  }
}
