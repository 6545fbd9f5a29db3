// The chunk format that multiplexes an inner and an outer byte stream over one
// connection. A chunk is a 32-bit big-endian header followed by its payload; the
// header's top bit says which stream the chunk belongs to and the remaining 31 bits
// give the payload length. A chunk with an empty payload is that stream's EOF.

module Chunks {
  import opened Wire

  /** `_chunk_inner_mask`, the header bit that marks an inner-stream chunk. */
  const InnerMask: nat := 0x8000_0000
  /** `_ForwardingBuffer._BUFFER_LEN` */
  const BufferLen: nat := 4096

  datatype Chunk = Inner(data: Bytes) | Outer(data: Bytes)

  predicate Fits(c: Chunk) {
    |c.data| < InnerMask
  }

  predicate AllFit(cs: seq<Chunk>) {
    forall i :: 0 <= i < |cs| ==> |cs[i].data| < InnerMask
  }

  /**
    The header value of a chunk: `_chunk_inner_mask | len(data)` for an inner chunk,
    `len(data)` for an outer one. The length is below the mask, so the bitwise or is
    an addition.
  */
  function HeaderValue(c: Chunk): (v: nat)
    requires Fits(c)
    ensures v < U32Bound
    ensures v >= InnerMask <==> c.Inner?
    ensures (if c.Inner? then v - InnerMask else v) == |c.data|
  {
    if c.Inner? then InnerMask + |c.data| else |c.data|
  }

  function Encode(c: Chunk): (e: Bytes)
    requires Fits(c)
    ensures |e| == U32Size + |c.data|
    ensures e[..U32Size] == Be32(HeaderValue(c)) && e[U32Size..] == c.data
  {
    Be32(HeaderValue(c)) + c.data
  }

  /** The bytes of a sequence of chunks, in order. */
  function EncodeAll(cs: seq<Chunk>): Bytes
    requires AllFit(cs)
  {
    if cs == [] then [] else EncodeAll(cs[..|cs| - 1]) + Encode(cs[|cs| - 1])
  }

  /** The bytes carried by the inner chunks, in order. */
  function InnerPayload(cs: seq<Chunk>): Bytes {
    if cs == [] then []
    else InnerPayload(cs[..|cs| - 1]) + (if cs[|cs| - 1].Inner? then cs[|cs| - 1].data else [])
  }

  /** The bytes carried by the outer chunks, in order. */
  function OuterPayload(cs: seq<Chunk>): Bytes {
    if cs == [] then []
    else OuterPayload(cs[..|cs| - 1]) + (if cs[|cs| - 1].Outer? then cs[|cs| - 1].data else [])
  }

  /** The inner chunks alone, in order. */
  function InnerChunks(cs: seq<Chunk>): (r: seq<Chunk>)
    ensures forall i :: 0 <= i < |r| ==> r[i].Inner?
    ensures |r| <= |cs|
  {
    if cs == [] then []
    else InnerChunks(cs[..|cs| - 1]) + (if cs[|cs| - 1].Inner? then [cs[|cs| - 1]] else [])
  }

  predicate HasInnerEof(cs: seq<Chunk>) {
    exists i :: 0 <= i < |cs| && cs[i] == Inner([])
  }

  predicate HasOuterEof(cs: seq<Chunk>) {
    exists i :: 0 <= i < |cs| && cs[i] == Outer([])
  }

  /** A stream's EOF is among `init + [c]` when it is among `init` or is `c`. */
  lemma EofOfAppend(init: seq<Chunk>, c: Chunk)
    ensures HasInnerEof(init + [c]) <==> HasInnerEof(init) || c == Inner([])
    ensures HasOuterEof(init + [c]) <==> HasOuterEof(init) || c == Outer([])
  {
    var cs := init + [c];
    assert cs[|init|] == c;
    if HasInnerEof(init) {
      var i :| 0 <= i < |init| && init[i] == Inner([]);
      assert cs[i] == Inner([]);
    }
    if HasOuterEof(init) {
      var i :| 0 <= i < |init| && init[i] == Outer([]);
      assert cs[i] == Outer([]);
    }
    if HasInnerEof(cs) {
      var i :| 0 <= i < |cs| && cs[i] == Inner([]);
      if i < |init| { assert init[i] == Inner([]); }
    }
    if HasOuterEof(cs) {
      var i :| 0 <= i < |cs| && cs[i] == Outer([]);
      if i < |init| { assert init[i] == Outer([]); }
    }
  }

  /** After a stream's EOF no further chunk of that stream follows. */
  predicate EndsOnce(cs: seq<Chunk>) {
    forall i, j :: 0 <= i < j < |cs| && cs[i].data == [] ==> cs[j].Inner? != cs[i].Inner?
  }

  /** A chunk may follow when its stream has not yet ended. */
  lemma EndsOnceAppend(cs: seq<Chunk>, c: Chunk)
    requires EndsOnce(cs)
    requires c.Inner? ==> !HasInnerEof(cs)
    requires c.Outer? ==> !HasOuterEof(cs)
    ensures EndsOnce(cs + [c])
  {
    var t := cs + [c];
    forall i, j | 0 <= i < j < |t| && t[i].data == [] ensures t[j].Inner? != t[i].Inner? {
      if j == |cs| {
        assert t[i] == cs[i] && t[j] == c;
        assert cs[i] == if cs[i].Inner? then Inner([]) else Outer([]);
      } else {
        assert t[i] == cs[i] && t[j] == cs[j];
      }
    }
  }

  /** The inner-stream EOF marker. */
  function InnerEof(): (e: Bytes)
    ensures e == Encode(Inner([]))
  {
    Be32(InnerMask)
  }

  /** The outer-stream EOF marker. */
  function OuterEof(): (e: Bytes)
    ensures e == Encode(Outer([]))
  {
    Be32(0)
  }

  lemma AllFitAppend(a: seq<Chunk>, b: seq<Chunk>)
    requires AllFit(a) && AllFit(b)
    ensures AllFit(a + b)
  {
    forall i | 0 <= i < |a + b| ensures |(a + b)[i].data| < InnerMask {
      if i >= |a| { assert (a + b)[i] == b[i - |a|]; }
    }
  }

  lemma {:induction false} EncodeAllAppend(a: seq<Chunk>, b: seq<Chunk>)
    requires AllFit(a) && AllFit(b)
    ensures AllFit(a + b) && EncodeAll(a + b) == EncodeAll(a) + EncodeAll(b)
    decreases |b|
  {
    AllFitAppend(a, b);
    if b != [] {
      var b' := b[..|b| - 1];
      var c := b[|b| - 1];
      assert AllFit(b');
      assert (a + b)[..|a + b| - 1] == a + b' && (a + b)[|a + b| - 1] == c;
      EncodeAllAppend(a, b');
      calc {
        EncodeAll(a + b);
        EncodeAll(a + b') + Encode(c);
        EncodeAll(a) + EncodeAll(b') + Encode(c);
        EncodeAll(a) + (EncodeAll(b') + Encode(c));
      }
    } else {
      assert a + b == a;
    }
  }

  /** Appending one chunk extends the encoding, the payloads and the EOFs by that chunk's. */
  lemma AppendChunk(cs: seq<Chunk>, c: Chunk)
    requires AllFit(cs) && Fits(c)
    ensures AllFit(cs + [c])
    ensures EncodeAll(cs + [c]) == EncodeAll(cs) + Encode(c)
    ensures InnerPayload(cs + [c]) == InnerPayload(cs) + (if c.Inner? then c.data else [])
    ensures OuterPayload(cs + [c]) == OuterPayload(cs) + (if c.Outer? then c.data else [])
    ensures HasInnerEof(cs + [c]) <==> HasInnerEof(cs) || c == Inner([])
    ensures HasOuterEof(cs + [c]) <==> HasOuterEof(cs) || c == Outer([])
  {
    var t := cs + [c];
    assert t[..|t| - 1] == cs && t[|t| - 1] == c;
    assert AllFit(t);
    EofOfAppend(cs, c);
  }

  lemma {:induction false} InnerChunksAllFit(cs: seq<Chunk>)
    requires AllFit(cs)
    ensures AllFit(InnerChunks(cs))
  {
    if cs != [] {
      assert AllFit(cs[..|cs| - 1]);
      InnerChunksAllFit(cs[..|cs| - 1]);
    }
  }

  /** The inner chunks of `cs` are those of all but its last chunk, and the last one if it is inner. */
  lemma InnerChunksStep(cs: seq<Chunk>)
    requires AllFit(cs) && cs != []
    ensures AllFit(InnerChunks(cs[..|cs| - 1]))
    ensures AllFit(InnerChunks(cs))
    ensures var c := cs[|cs| - 1];
      EncodeAll(InnerChunks(cs)) == EncodeAll(InnerChunks(cs[..|cs| - 1])) + (if c.Inner? then Encode(c) else [])
  {
    var init := cs[..|cs| - 1];
    var c := cs[|cs| - 1];
    assert AllFit(init);
    InnerChunksAllFit(init);
    InnerChunksAllFit(cs);
    var ic := InnerChunks(init);
    if c.Inner? {
      assert InnerChunks(cs) == ic + [c];
      AppendChunk(ic, c);
    } else {
      assert InnerChunks(cs) == ic;
    }
  }

  /** A header is inner exactly when its top bit is set; its length is the other 31 bits. */
  lemma HeaderOfEncode(c: Chunk)
    requires Fits(c)
    ensures var v := Be32Value(Encode(c)[..U32Size]);
      (v >= InnerMask <==> c.Inner?) && (if v >= InnerMask then v - InnerMask else v) == |c.data|
  {
  }

  // ---------------------------------------------------------------------------
  // reading the format one byte at a time

  /**
    The reader's state between bytes: the header bytes collected so far, and the
    payload bytes still expected of the current inner or outer chunk.
  */
  datatype Framer = Framer(header: Bytes, innerLeft: nat, outerLeft: nat)

  const Idle := Framer([], 0, 0)

  /** At most one chunk is in progress, and a header is only collected between chunks. */
  predicate FramerValid(f: Framer) {
    && |f.header| < U32Size
    && (f.innerLeft == 0 || f.outerLeft == 0)
    && (f.header != [] ==> f.innerLeft == 0 && f.outerLeft == 0)
  }

  /** What one byte of the stream turned out to be. */
  datatype Event =
    | InnerByte(b: byte)
    | OuterByte(b: byte)
    | HeaderByte
    | InnerHeader(header: Bytes, length: nat)
    | OuterHeader(length: nat)

  /** A complete header: the top bit selects the stream, the other 31 bits the length. */
  function HeaderDone(h: Bytes): (r: (Framer, Event))
    requires |h| == U32Size
    ensures FramerValid(r.0) && r.0.header == []
    ensures r.1.InnerHeader? || r.1.OuterHeader?
    ensures r.1.InnerHeader? ==> r.1.header == h && r.0 == Framer([], r.1.length, 0)
    ensures r.1.OuterHeader? ==> r.0 == Framer([], 0, r.1.length)
  {
    var v := Be32Value(h);
    if v >= InnerMask then (Framer([], v - InnerMask, 0), InnerHeader(h, v - InnerMask))
    else (Framer([], 0, v), OuterHeader(v))
  }

  function FrameByte(f: Framer, b: byte): (r: (Framer, Event))
    requires FramerValid(f)
    ensures FramerValid(r.0)
  {
    if f.innerLeft > 0 then (f.(innerLeft := f.innerLeft - 1), InnerByte(b))
    else if f.outerLeft > 0 then (f.(outerLeft := f.outerLeft - 1), OuterByte(b))
    else if |f.header| + 1 < U32Size then (f.(header := f.header + [b]), HeaderByte)
    else HeaderDone(f.header + [b])
  }

  /** The header of an encoded chunk is read as that chunk's stream and length. */
  lemma HeaderDoneOfChunk(c: Chunk)
    requires Fits(c)
    ensures HeaderDone(Be32(HeaderValue(c))) ==
      if c.Inner? then (Framer([], |c.data|, 0), InnerHeader(Be32(HeaderValue(c)), |c.data|))
      else (Framer([], 0, |c.data|), OuterHeader(|c.data|))
  {
  }
}
