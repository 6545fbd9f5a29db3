// `OuterBuffer`: access to the outer stream of a connection that multiplexes an inner
// and an outer stream. Reading outer data sets aside the inner chunks met on the way;
// writing sends one outer chunk.

module OuterStream {
  import opened Wire
  import opened Chunks
  import opened Poll

  /**
    A blocking socket: `incoming` is what the peer still sends before its EOF,
    `outgoing` everything sent so far.
  */
  class Socket {
    var incoming: Bytes
    var outgoing: Bytes

    constructor (peer: Bytes)
      ensures incoming == peer && outgoing == []
    {
      incoming, outgoing := peer, [];
    }

    /** `recv(max)`: some of the next bytes, at most `max`; nothing only at EOF. */
    method Recv(max: nat) returns (run: Bytes)
      requires max > 0
      modifies this`incoming
      ensures |run| <= max && old(incoming) == run + incoming
      ensures old(incoming) != [] ==> run != []
    {
      var k := Min(max, |incoming|);
      run := incoming[..k];
      incoming := incoming[k..];
      assert old(incoming) == run + incoming;
    }

    /** `send(data)` on a blocking socket: everything is sent. */
    method Send(data: Bytes)
      modifies this`outgoing
      ensures outgoing == old(outgoing) + data
    {
      outgoing := outgoing + data;
    }
  }

  /** How `read` ends: with the bytes asked for, or with one of its two `EOFError`s. */
  datatype ReadEnd =
    | Done
    | EofOnSocket        // the connection ended inside a header or a payload
    | EofOnOuterStream   // an outer chunk of length 0 arrived

  /** `read`'s result so far, the buffer's two fields and what the socket still has. */
  datatype ReadState = ReadState(res: Bytes, outerData: Bytes, innerPackets: Bytes, incoming: Bytes)

  /** `__recv_exact(k)` on a connection with `incoming` left: the bytes, or EOF with everything consumed. */
  function Exactly(incoming: Bytes, k: nat): (r: (bool, Bytes, Bytes))
    ensures r.0 <==> k <= |incoming|
    ensures r.0 ==> |r.1| == k && incoming == r.1 + r.2
    ensures !r.0 ==> r.2 == []
  {
    if k <= |incoming| then (true, incoming[..k], incoming[k..]) else (false, [], [])
  }

  /** The buffered outer data `read(n)` uses up before it turns to the socket. */
  function TakeBuffered(n: nat, s: ReadState): (r: ReadState)
    requires |s.res| < n
    ensures |r.res| <= n && r.incoming == s.incoming && r.innerPackets == s.innerPackets
    ensures r.res + r.outerData == s.res + s.outerData
    ensures |r.res| < n ==> r.outerData == []
  {
    var run := Min(n - |s.res|, |s.outerData|);
    assert s.outerData == s.outerData[..run] + s.outerData[run..];
    s.(res := s.res + s.outerData[..run], outerData := s.outerData[run..])
  }

  /**
    One chunk fetched from the socket once the buffered outer data is used up: an
    inner chunk is set aside with its header, the payload of an outer chunk becomes
    the outer data; an outer chunk of length 0 is the outer stream's EOF. On an EOF
    inside an inner chunk, its header stays set aside.
  */
  function FetchChunk(s: ReadState): (r: (ReadEnd, ReadState))
    ensures r.0 == Done ==> |r.1.incoming| < |s.incoming|
    ensures r.1.res == s.res
  {
    var (okH, header, rest) := Exactly(s.incoming, U32Size);
    if !okH then (EofOnSocket, s.(incoming := rest))
    else
      var v := Be32Value(header);
      if v >= InnerMask then
        var (ok, payload, rest') := Exactly(rest, v - InnerMask);
        if !ok then (EofOnSocket, s.(innerPackets := s.innerPackets + header, incoming := rest'))
        else (Done, s.(innerPackets := s.innerPackets + header + payload, incoming := rest'))
      else if v == 0 then (EofOnOuterStream, s.(incoming := rest))
      else
        var (ok, payload, rest') := Exactly(rest, v);
        if !ok then (EofOnSocket, s.(incoming := rest'))
        else (Done, s.(outerData := s.outerData + payload, incoming := rest'))
  }

  /** `read(n)`: the reference behaviour of its loop. */
  function ReadLoop(n: nat, s: ReadState): (r: (ReadEnd, ReadState))
    ensures r.0 == Done ==> |r.1.res| >= n
    ensures |s.res| <= n ==> |r.1.res| <= n
    decreases |s.incoming|
  {
    if |s.res| >= n then (Done, s)
    else
      var s1 := TakeBuffered(n, s);
      if |s1.res| == n then (Done, s1)
      else
        var (e, s2) := FetchChunk(s1);
        if e != Done then (e, s2) else ReadLoop(n, s2)
  }

  // ---------------------------------------------------------------------------
  // the partner: what the peer's `write` and `send_outer_eof` put on the wire

  /** All but possibly the first `k` bytes of the outer data are left for the next read. */
  lemma ReadFromBuffered(n: nat, s: ReadState)
    requires s.res == [] && n <= |s.outerData|
    ensures ReadLoop(n, s) == (Done, s.(res := s.outerData[..n], outerData := s.outerData[n..]))
  {
    if n == 0 {
      assert s.outerData[..0] == [] && s.outerData[0..] == s.outerData;
    } else {
      assert TakeBuffered(n, s) == s.(res := s.outerData[..n], outerData := s.outerData[n..]);
    }
  }

  /** An inner chunk met while outer data is wanted is set aside, header included. */
  lemma FetchInner(n: nat, s: ReadState, c: Chunk, more: Bytes)
    requires c.Inner? && Fits(c) && |s.res| < n && s.outerData == []
    requires s.incoming == Encode(c) + more
    ensures ReadLoop(n, s) == ReadLoop(n, s.(innerPackets := s.innerPackets + Encode(c), incoming := more))
  {
    var e := Encode(c);
    assert s.incoming[..U32Size] == e[..U32Size] && s.incoming[U32Size..] == c.data + more;
    assert (c.data + more)[..|c.data|] == c.data && (c.data + more)[|c.data|..] == more;
    var s1 := TakeBuffered(n, s);
    assert s1 == s;
    assert s.innerPackets + e[..U32Size] + c.data == s.innerPackets + e;
  }

  /** A sequence of inner chunks met while outer data is wanted is set aside, in order. */
  lemma {:induction false} FetchInnerChunks(n: nat, s: ReadState, ics: seq<Chunk>, more: Bytes)
    requires AllFit(ics) && (forall i :: 0 <= i < |ics| ==> ics[i].Inner?)
    requires |s.res| < n && s.outerData == [] && s.incoming == EncodeAll(ics) + more
    ensures ReadLoop(n, s) == ReadLoop(n, s.(innerPackets := s.innerPackets + EncodeAll(ics), incoming := more))
    decreases |ics|
  {
    if ics == [] {
      assert s.innerPackets + [] == s.innerPackets && s.incoming == more;
    } else {
      var init := ics[..|ics| - 1];
      var c := ics[|ics| - 1];
      var p := s.innerPackets;
      assert AllFit(init) && EncodeAll(ics) == EncodeAll(init) + Encode(c);
      AppendAssoc(EncodeAll(init), Encode(c), more);
      AppendAssoc(p, EncodeAll(init), Encode(c));
      FetchInnerChunks(n, s, init, Encode(c) + more);
      FetchInner(n, s.(innerPackets := p + EncodeAll(init), incoming := Encode(c) + more), c, more);
    }
  }

  /** An outer chunk with enough payload completes the read; the rest of the payload stays buffered. */
  lemma FetchOuter(n: nat, s: ReadState, d: Bytes, more: Bytes)
    requires Fits(Outer(d)) && s.outerData == [] && |s.res| < n <= |s.res| + |d|
    requires s.incoming == Encode(Outer(d)) + more
    ensures var k := n - |s.res|;
      ReadLoop(n, s) == (Done, s.(res := s.res + d[..k], outerData := d[k..], incoming := more))
  {
    var e := Encode(Outer(d));
    HeaderOfEncode(Outer(d));
    assert s.incoming[..U32Size] == e[..U32Size] && s.incoming[U32Size..] == d + more;
    assert Be32Value(e[..U32Size]) == |d| > 0;
    assert Exactly(d + more, |d|) == (true, d, more) by {
      assert (d + more)[..|d|] == d && (d + more)[|d|..] == more;
    }
    assert TakeBuffered(n, s) == s;
    var s2 := s.(outerData := d, incoming := more);
    assert [] + d == d;
    assert FetchChunk(s) == (Done, s2);
    assert TakeBuffered(n, s2) == s2.(res := s.res + d[..n - |s.res|], outerData := d[n - |s.res|..]);
  }

  /** An outer EOF met while outer data is wanted ends the read with `EOFError`. */
  lemma FetchOuterEof(n: nat, s: ReadState, more: Bytes)
    requires s.outerData == [] && |s.res| < n && s.incoming == OuterEof() + more
    ensures ReadLoop(n, s) == (EofOnOuterStream, s.(incoming := more))
  {
    assert s.incoming[..U32Size] == OuterEof() && s.incoming[U32Size..] == more;
    assert TakeBuffered(n, s) == s;
  }

  /** When the buffered outer data does not suffice, using it up first changes nothing. */
  lemma ReadBufferedFirst(n: nat, s: ReadState)
    requires |s.res| + |s.outerData| < n
    ensures TakeBuffered(n, s) == s.(res := s.res + s.outerData, outerData := [])
    ensures ReadLoop(n, s) == ReadLoop(n, TakeBuffered(n, s))
  {
    var s1 := TakeBuffered(n, s);
    assert s.outerData[..|s.outerData|] == s.outerData;
    assert TakeBuffered(n, s1) == s1 by {
      assert s1.res + [] == s1.res;
    }
    var next := FetchChunk(s1);
    var after := if next.0 != Done then next else ReadLoop(n, next.1);
    assert ReadLoop(n, s1) == after;
    assert ReadLoop(n, s) == after;
  }

  /**
    Reading what the peer wrote: the inner chunks sent before an outer chunk are set
    aside for `pending_inner_packets`, and the read returns the buffered outer data
    followed by the outer chunk's payload, the rest of which stays buffered.
  */
  lemma ReadAfterWrite(n: nat, buffered: Bytes, pending: Bytes, ics: seq<Chunk>, d: Bytes, more: Bytes)
    requires AllFit(ics) && (forall i :: 0 <= i < |ics| ==> ics[i].Inner?)
    requires Fits(Outer(d)) && |buffered| < n <= |buffered| + |d|
    ensures var k := n - |buffered|;
      ReadLoop(n, ReadState([], buffered, pending, EncodeAll(ics) + Encode(Outer(d)) + more)) ==
        (Done, ReadState(buffered + d[..k], d[k..], pending + EncodeAll(ics), more))
  {
    var tail := Encode(Outer(d)) + more;
    var s := ReadState([], buffered, pending, EncodeAll(ics) + Encode(Outer(d)) + more);
    var s1 := ReadState(buffered, [], pending, EncodeAll(ics) + tail);
    AppendAssoc(EncodeAll(ics), Encode(Outer(d)), more);
    ReadBufferedFirst(n, s);
    assert TakeBuffered(n, s) == s1 by {
      assert [] + buffered == buffered;
    }
    FetchInnerChunks(n, s1, ics, tail);
    FetchOuter(n, ReadState(buffered, [], pending + EncodeAll(ics), tail), d, more);
  }

  /** Reading past the peer's `send_outer_eof` raises `EOFError`, after setting aside the inner chunks before it. */
  lemma ReadAfterOuterEof(n: nat, buffered: Bytes, pending: Bytes, ics: seq<Chunk>, more: Bytes)
    requires AllFit(ics) && (forall i :: 0 <= i < |ics| ==> ics[i].Inner?)
    requires |buffered| < n
    ensures ReadLoop(n, ReadState([], buffered, pending, EncodeAll(ics) + OuterEof() + more)) ==
      (EofOnOuterStream, ReadState(buffered, [], pending + EncodeAll(ics), more))
  {
    var s := ReadState([], buffered, pending, EncodeAll(ics) + OuterEof() + more);
    ReadBufferedFirst(n, s);
    var s1 := TakeBuffered(n, s);
    assert [] + buffered == buffered;
    AppendAssoc(EncodeAll(ics), OuterEof(), more);
    FetchInnerChunks(n, s1, ics, OuterEof() + more);
    FetchOuterEof(n, s1.(innerPackets := pending + EncodeAll(ics), incoming := OuterEof() + more), more);
  }

  /** A connection that ends before a complete header makes a read that needs it raise `EOFError`. */
  lemma ReadTruncatedHeader(n: nat, buffered: Bytes, pending: Bytes, tail: Bytes)
    requires |buffered| < n && |tail| < U32Size
    ensures ReadLoop(n, ReadState([], buffered, pending, tail)) ==
      (EofOnSocket, ReadState(buffered, [], pending, []))
  {
    var s := ReadState([], buffered, pending, tail);
    assert buffered[..|buffered|] == buffered && [] + buffered == buffered;
    assert TakeBuffered(n, s) == ReadState(buffered, [], pending, tail);
  }

  /** A non-empty outer chunk on the wire is fetched whole into the outer data. */
  lemma FetchOuterChunk(s: ReadState, d: Bytes, more: Bytes)
    requires Fits(Outer(d)) && d != [] && s.incoming == Encode(Outer(d)) + more
    ensures FetchChunk(s) == (Done, s.(outerData := s.outerData + d, incoming := more))
  {
    var e := Encode(Outer(d));
    HeaderOfEncode(Outer(d));
    assert s.incoming[..U32Size] == e[..U32Size] && s.incoming[U32Size..] == d + more;
    assert Exactly(d + more, |d|) == (true, d, more) by {
      assert (d + more)[..|d|] == d && (d + more)[|d|..] == more;
    }
  }

  /** An outer chunk that does not complete the read is taken whole, and the read goes on. */
  lemma FetchOuterWhole(n: nat, s: ReadState, d: Bytes, more: Bytes)
    requires Fits(Outer(d)) && d != [] && s.outerData == [] && |s.res| + |d| < n
    requires s.incoming == Encode(Outer(d)) + more
    ensures ReadLoop(n, s) == ReadLoop(n, s.(res := s.res + d, incoming := more))
  {
    var s2 := s.(outerData := d, incoming := more);
    assert ReadLoop(n, s) == ReadLoop(n, s2) by {
      FetchOuterChunk(s, d, more);
      assert [] + d == d && s.res + [] == s.res;
      assert TakeBuffered(n, s) == s;
    }
    var t := s.(res := s.res + d, incoming := more);
    assert ReadLoop(n, s2) == ReadLoop(n, t) by {
      ReadBufferedFirst(n, s2);
      assert TakeBuffered(n, s2) == t;
    }
  }

  /** One chunk other than the outer EOF, whose outer payload does not complete the read, is consumed whole. */
  lemma ReadThroughChunk(n: nat, s: ReadState, c: Chunk, more: Bytes)
    requires Fits(c) && c != Outer([]) && s.outerData == [] && s.incoming == Encode(c) + more
    requires |s.res| + (if c.Outer? then |c.data| else 0) < n
    ensures ReadLoop(n, s) == ReadLoop(n, s.(res := s.res + (if c.Outer? then c.data else []),
      innerPackets := s.innerPackets + (if c.Inner? then Encode(c) else []), incoming := more))
  {
    if c.Inner? {
      FetchInner(n, s, c, more);
      assert s.res + [] == s.res;
    } else {
      assert c == Outer(c.data);
      FetchOuterWhole(n, s, c.data, more);
      assert s.innerPackets + [] == s.innerPackets;
    }
  }

  /**
    Chunks without an outer EOF whose outer payload does not complete the read are
    consumed whole: their inner chunks are set aside and their outer payload is added
    to the result.
  */
  lemma {:induction false} ReadThroughChunks(n: nat, s: ReadState, cs: seq<Chunk>, more: Bytes)
    requires AllFit(cs) && !HasOuterEof(cs)
    requires s.outerData == [] && |s.res| + |OuterPayload(cs)| < n && s.incoming == EncodeAll(cs) + more
    ensures AllFit(InnerChunks(cs))
    ensures ReadLoop(n, s) == ReadLoop(n, s.(res := s.res + OuterPayload(cs),
      innerPackets := s.innerPackets + EncodeAll(InnerChunks(cs)), incoming := more))
    decreases |cs|
  {
    InnerChunksAllFit(cs);
    if cs == [] {
      assert s.res + [] == s.res && s.innerPackets + [] == s.innerPackets && s.incoming == more;
    } else {
      var init, c := cs[..|cs| - 1], cs[|cs| - 1];
      InnerChunksStep(cs);
      AppendChunk(init, c);
      assert cs == init + [c];
      EofOfAppend(init, c);
      var op := if c.Outer? then c.data else [];
      var ip := if c.Inner? then Encode(c) else [];
      assert OuterPayload(cs) == OuterPayload(init) + op;
      assert EncodeAll(InnerChunks(cs)) == EncodeAll(InnerChunks(init)) + ip;
      AppendAssoc(EncodeAll(init), Encode(c), more);
      ReadThroughChunks(n, s, init, Encode(c) + more);
      var s1 := s.(res := s.res + OuterPayload(init),
        innerPackets := s.innerPackets + EncodeAll(InnerChunks(init)), incoming := Encode(c) + more);
      ReadThroughChunk(n, s1, c, more);
      AppendAssoc(s.res, OuterPayload(init), op);
      AppendAssoc(s.innerPackets, EncodeAll(InnerChunks(init)), ip);
    }
  }

  /** The outer chunk that completes a read leaves the rest of its payload buffered. */
  lemma ReadLastOuter(n: nat, front: Bytes, d: Bytes, q: Bytes, more: Bytes)
    requires Fits(Outer(d)) && |front| < n <= |front| + |d|
    ensures var all := front + d;
      ReadLoop(n, ReadState(front, [], q, Encode(Outer(d)) + more)) == (Done, ReadState(all[..n], all[n..], q, more))
  {
    var all, k := front + d, n - |front|;
    FetchOuter(n, ReadState(front, [], q, Encode(Outer(d)) + more), d, more);
    assert all[..n] == front + d[..k] && all[n..] == d[k..];
  }

  /**
    A read served by several outer chunks: with the buffered outer data `b` and then
    the chunks `cs` on the wire, none an outer EOF and the last an outer chunk that
    completes the read, `read(n)` returns the first `n` bytes of `b` followed by the
    outer payload, keeps the rest buffered and sets aside every inner chunk.
  */
  lemma ReadSpansChunks(n: nat, b: Bytes, p: Bytes, cs: seq<Chunk>, more: Bytes)
    requires AllFit(cs) && !HasOuterEof(cs) && cs != [] && cs[|cs| - 1].Outer?
    requires |b + OuterPayload(cs[..|cs| - 1])| < n <= |b + OuterPayload(cs)|
    ensures AllFit(InnerChunks(cs))
    ensures var all := b + OuterPayload(cs);
      ReadLoop(n, ReadState([], b, p, EncodeAll(cs) + more)) ==
        (Done, ReadState(all[..n], all[n..], p + EncodeAll(InnerChunks(cs)), more))
  {
    var init, c := cs[..|cs| - 1], cs[|cs| - 1];
    assert cs == init + [c] && AllFit(init) && c == Outer(c.data) && Fits(c);
    InnerChunksAllFit(init);
    EofOfAppend(init, c);
    assert InnerChunks(cs) == InnerChunks(init) by {
      assert InnerChunks(cs) == InnerChunks(init) + [];
    }
    var s := ReadState([], b, p, EncodeAll(cs) + more);
    var s1 := ReadState(b, [], p, EncodeAll(init) + (Encode(c) + more));
    assert ReadLoop(n, s) == ReadLoop(n, s1) by {
      ReadBufferedFirst(n, s);
      assert [] + b == b;
      AppendAssoc(EncodeAll(init), Encode(c), more);
    }
    var front, q := b + OuterPayload(init), p + EncodeAll(InnerChunks(init));
    assert ReadLoop(n, s1) == ReadLoop(n, ReadState(front, [], q, Encode(c) + more)) by {
      ReadThroughChunks(n, s1, init, Encode(c) + more);
    }
    assert b + OuterPayload(cs) == front + c.data by {
      AppendAssoc(b, OuterPayload(init), c.data);
    }
    ReadLastOuter(n, front, c.data, q, more);
  }

  // ---------------------------------------------------------------------------
  // the buffer

  /** `OuterBuffer` over its socket. */
  class OuterBuffer {
    const socket: Socket
    var innerPackets: Bytes
    var outerData: Bytes

    constructor (s: Socket)
      ensures socket == s && innerPackets == [] && outerData == []
    {
      socket := s;
      innerPackets, outerData := [], [];
    }

    function Current(res: Bytes): ReadState
      reads this`outerData, this`innerPackets, socket`incoming
    {
      ReadState(res, outerData, innerPackets, socket.incoming)
    }

    /** `__recv_exact`: exactly `k` bytes, or EOF when the connection ends first. */
    method RecvExact(k: nat) returns (ok: bool, data: Bytes)
      modifies socket`incoming
      ensures ok == Exactly(old(socket.incoming), k).0 && socket.incoming == Exactly(old(socket.incoming), k).2
      ensures ok ==> data == Exactly(old(socket.incoming), k).1
    {
      data := [];
      while |data| < k
        invariant |data| <= k && old(socket.incoming) == data + socket.incoming
        decreases k - |data|
      {
        var run := socket.Recv(k - |data|);
        if |run| == 0 {
          assert socket.incoming == [];
          return false, data;
        }
        data := data + run;
      }
      ok := true;
      assert data == old(socket.incoming)[..k];
    }

    /**
      `read(n)`: exactly `n` bytes of outer data, from the buffer and then from the
      outer chunks that arrive, setting aside the inner chunks met on the way.
    */
    method Read(n: nat) returns (end: ReadEnd, res: Bytes)
      modifies this`outerData, this`innerPackets, socket`incoming
      ensures (end, Current(res)) == ReadLoop(n, old(Current([])))
      ensures end == Done ==> |res| == n
    {
      res := [];
      while |res| < n
        invariant ReadLoop(n, Current(res)) == ReadLoop(n, old(Current([])))
        decreases |socket.incoming|
      {
        var run := Min(n - |res|, |outerData|);
        res := res + outerData[..run];
        outerData := outerData[run..];
        if |res| == n {
          break;
        }
        // Once short of `n`, the buffered outer data is used up: `Unexpected outer data` cannot be raised.
        assert outerData == [];
        end := Fetch(res);
        if end != Done {
          return;
        }
      }
      end := Done;
    }

    /** One header and its payload, as `read` handles them. */
    method Fetch(ghost res: Bytes) returns (end: ReadEnd)
      modifies this`outerData, this`innerPackets, socket`incoming
      ensures (end, Current(res)) == FetchChunk(old(Current(res)))
    {
      var okH, header := RecvExact(U32Size);
      if !okH {
        return EofOnSocket;
      }
      var v := Be32Value(header);
      if v >= InnerMask {
        innerPackets := innerPackets + header;
        var ok, payload := RecvExact(v - InnerMask);
        if !ok {
          return EofOnSocket;
        }
        innerPackets := innerPackets + payload;
      } else {
        if v == 0 {
          return EofOnOuterStream;
        }
        var ok, payload := RecvExact(v);
        if !ok {
          return EofOnSocket;
        }
        outerData := outerData + payload;
      }
      end := Done;
    }

    /** `write`: one outer chunk carrying `data`, unless `data` is too long for a header. */
    method Write(data: Bytes) returns (status: Status)
      modifies socket`outgoing
      ensures status == if |data| < InnerMask then Completed else Raised(DataSizeTooLarge)
      ensures socket.outgoing == old(socket.outgoing) + if |data| < InnerMask then Encode(Outer(data)) else []
    {
      if |data| >= InnerMask {
        return Raised(DataSizeTooLarge);
      }
      socket.Send(Be32(|data|));
      socket.Send(data);
      status := Completed;
    }

    /** `send_outer_eof`: an outer chunk of length 0. */
    method SendOuterEof()
      modifies socket`outgoing
      ensures socket.outgoing == old(socket.outgoing) + Encode(Outer([]))
    {
      socket.Send(Be32(0));
    }

    /** `pending_inner_packets`: hands out the inner chunks set aside since the last call. */
    method PendingInnerPackets() returns (res: Bytes)
      modifies this`innerPackets
      ensures res == old(innerPackets) && innerPackets == []
    {
      res := innerPackets;
      innerPackets := [];
    }

    /** `add_outer_data`: outer data to be read before anything from the socket. */
    method AddOuterData(data: Bytes)
      modifies this`outerData
      ensures outerData == old(outerData) + data
    {
      outerData := outerData + data;
    }
  }
}
