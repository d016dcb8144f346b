/** Packets of the compact binary protocol on a byte stream. */
module Framing {
  type Byte = n: nat | n < 256

  type Word = n: nat | n < 0x1_0000

  // What a command type is registered with.
  type Handler(==, !new)

  /** A handler call: which handler, for which packet type, with which bytes. */
  datatype Call = Call(handler: Handler, packetType: nat, payload: seq<Byte>)

  const HEADER_SIZE := 5

  /** `ntohs` on two bytes of the wire. */
  function Wide(high: Byte, low: Byte): Word {
    high * 256 + low
  }

  /** `htons`, as the two bytes that go out. */
  function Split(n: Word): (bytes: seq<Byte>)
    ensures |bytes| == 2 && Wide(bytes[0], bytes[1]) == n
  {
    [n / 256, n % 256]
  }

  function PayloadSize(d: seq<Byte>): nat
    requires |d| >= HEADER_SIZE
  {
    Wide(d[1], d[2])
  }

  function PacketType(d: seq<Byte>): nat
    requires |d| >= HEADER_SIZE
  {
    Wide(d[3], d[4])
  }

  /** A whole packet with the right signature stands at the front. */
  predicate Complete(sign: Byte, d: seq<Byte>) {
    |d| >= HEADER_SIZE && d[0] == sign && HEADER_SIZE + PayloadSize(d) <= |d|
  }

  function Front(d: seq<Byte>): (p: seq<Byte>)
    requires |d| >= HEADER_SIZE && HEADER_SIZE + PayloadSize(d) <= |d|
  {
    d[HEADER_SIZE..HEADER_SIZE + PayloadSize(d)]
  }

  function Behind(d: seq<Byte>): (rest: seq<Byte>)
    requires |d| >= HEADER_SIZE && HEADER_SIZE + PayloadSize(d) <= |d|
    ensures |rest| < |d|
  {
    d[HEADER_SIZE + PayloadSize(d)..]
  }

  /** The calls the first packet leads to: none if its type is not registered. */
  function CallsFor(known: map<nat, Handler>, d: seq<Byte>): seq<Call>
    requires |d| >= HEADER_SIZE && HEADER_SIZE + PayloadSize(d) <= |d|
  {
    if PacketType(d) in known then [Call(known[PacketType(d)], PacketType(d), Front(d))] else []
  }

  /** The calls made, in order, and the bytes that are left. */
  datatype Outcome = Outcome(calls: seq<Call>, rest: seq<Byte>)

  function After(calls: seq<Call>, o: Outcome): Outcome {
    Outcome(calls + o.calls, o.rest)
  }

  lemma AfterAfter(a: seq<Call>, b: seq<Call>, o: Outcome)
    ensures After(a, After(b, o)) == After(a + b, o)
    ensures After([], o) == o
    ensures a + [] == a
  {
    assert a + (b + o.calls) == (a + b) + o.calls;
  }

  /** What a stream means. */
  function Stream(sign: Byte, known: map<nat, Handler>, d: seq<Byte>): (o: Outcome)
    ensures !Complete(sign, o.rest)
    decreases |d|
  {
    if Complete(sign, d) then After(CallsFor(known, d), Stream(sign, known, Behind(d))) else Outcome([], d)
  }

  /**
   * A stream cut anywhere means the same: the rest of the first part is
   * carried over to the second.
   */
  lemma {:induction false} StreamCut(sign: Byte, known: map<nat, Handler>, a: seq<Byte>, b: seq<Byte>)
    ensures var first := Stream(sign, known, a);
      Stream(sign, known, a + b) == After(first.calls, Stream(sign, known, first.rest + b))
    decreases |a|
  {
    if Complete(sign, a) {
      assert Front(a + b) == Front(a) && Behind(a + b) == Behind(a) + b;
      StreamCut(sign, known, Behind(a), b);
      var next := Stream(sign, known, Behind(a));
      AfterAfter(CallsFor(known, a), next.calls, Stream(sign, known, next.rest + b));
    } else {
      AfterAfter([], [], Stream(sign, known, a + b));
    }
  }

  function Concat(segments: seq<seq<Byte>>): seq<Byte> {
    if segments == [] then [] else segments[0] + Concat(segments[1..])
  }

  /** The receive buffer and the calls after one segment after the other. */
  function Fed(sign: Byte, known: map<nat, Handler>, kept: seq<Byte>, segments: seq<seq<Byte>>): Outcome
    decreases |segments|
  {
    if segments == [] then Outcome([], kept)
    else
      var first := Stream(sign, known, kept + segments[0]);
      After(first.calls, Fed(sign, known, first.rest, segments[1..]))
  }

  /** Neither the calls nor the rest depend on the segmentation, for any bytes whatsoever. */
  lemma {:induction false} SegmentationIndependent(sign: Byte, known: map<nat, Handler>, kept: seq<Byte>, segments: seq<seq<Byte>>)
    requires !Complete(sign, kept)
    ensures Fed(sign, known, kept, segments) == Stream(sign, known, kept + Concat(segments))
    decreases |segments|
  {
    if segments == [] {
      assert kept + [] == kept;
    } else {
      var d := kept + segments[0];
      SegmentationIndependent(sign, known, Stream(sign, known, d).rest, segments[1..]);
      StreamCut(sign, known, d, Concat(segments[1..]));
      assert d + Concat(segments[1..]) == kept + Concat(segments);
    }
  }

  /** Exactly one packet. */
  predicate IsPacket(sign: Byte, p: seq<Byte>) {
    Complete(sign, p) && Behind(p) == []
  }

  /** The packets of registered types. */
  function Registered(known: map<nat, Handler>, packets: seq<seq<Byte>>): seq<seq<Byte>> {
    if packets == [] then []
    else (if |packets[0]| >= HEADER_SIZE && PacketType(packets[0]) in known then [packets[0]] else []) + Registered(known, packets[1..])
  }

  lemma StreamInFront(sign: Byte, known: map<nat, Handler>, p: seq<Byte>, rest: seq<Byte>)
    requires IsPacket(sign, p)
    ensures |p| >= HEADER_SIZE && HEADER_SIZE + PayloadSize(p) <= |p|
    ensures Stream(sign, known, p + rest) == After(CallsFor(known, p), Stream(sign, known, rest))
    ensures PacketType(p) !in known ==> Stream(sign, known, p + rest) == Stream(sign, known, rest)
  {
    assert HEADER_SIZE + PayloadSize(p) == |p|;
    assert Complete(sign, p + rest) && PacketType(p + rest) == PacketType(p);
    assert Front(p + rest) == Front(p) && Behind(p + rest) == rest;
    AfterAfter([], [], Stream(sign, known, rest));
  }

  lemma ConcatFirst(p: seq<Byte>, rest: seq<seq<Byte>>, tail: seq<Byte>)
    ensures Concat([p] + rest) + tail == p + (Concat(rest) + tail)
  {
    assert ([p] + rest)[1..] == rest;
  }

  lemma RegisteredFirst(known: map<nat, Handler>, packets: seq<seq<Byte>>)
    requires packets != [] && |packets[0]| >= HEADER_SIZE
    ensures Registered(known, packets) ==
            if PacketType(packets[0]) in known then [packets[0]] + Registered(known, packets[1..]) else Registered(known, packets[1..])
  {
  }

  /**
   * Packets of types that are not registered make no difference, wherever
   * they stand between other packets and whatever follows the last one.
   */
  lemma {:induction false} UnknownMakeNoDifference(sign: Byte, known: map<nat, Handler>, packets: seq<seq<Byte>>, tail: seq<Byte>)
    requires forall p | p in packets :: IsPacket(sign, p)
    ensures Stream(sign, known, Concat(packets) + tail) == Stream(sign, known, Concat(Registered(known, packets)) + tail)
  {
    hide Complete, Front, Behind, PacketType, PayloadSize, Stream, Concat, CallsFor, IsPacket;
    if packets == [] {
      assert Registered(known, packets) == packets;
    } else {
      hide Registered;
      var p, rest := packets[0], packets[1..];
      assert IsPacket(sign, p) && packets == [p] + rest;
      UnknownMakeNoDifference(sign, known, rest, tail);
      StreamInFront(sign, known, p, Concat(rest) + tail);
      StreamInFront(sign, known, p, Concat(Registered(known, rest)) + tail);
      ConcatFirst(p, rest, tail);
      ConcatFirst(p, Registered(known, rest), tail);
      RegisteredFirst(known, packets);
    }
  }

  /** So both streams lead to the same calls and the same rest, in whatever segments either arrives. */
  lemma {:induction false} UnknownBlockNothing(sign: Byte, known: map<nat, Handler>, packets: seq<seq<Byte>>, tail: seq<Byte>,
                                               segments: seq<seq<Byte>>, others: seq<seq<Byte>>)
    requires forall p | p in packets :: IsPacket(sign, p)
    requires Concat(segments) == Concat(packets) + tail && Concat(others) == Concat(Registered(known, packets)) + tail
    ensures Fed(sign, known, [], segments) == Fed(sign, known, [], others)
  {
    hide Registered;
    SegmentationIndependent(sign, known, [], segments);
    SegmentationIndependent(sign, known, [], others);
    UnknownMakeNoDifference(sign, known, packets, tail);
    assert [] + Concat(segments) == Concat(segments) && [] + Concat(others) == Concat(others);
  }

  /** What one call of `DoProcessCB` does: the calls, and how many bytes were processed. */
  datatype Step = Step(calls: seq<Call>, processed: nat)

  /** It goes on packet by packet, and ends behind the first one of an unknown type. */
  function Dispatched(sign: Byte, known: map<nat, Handler>, d: seq<Byte>): (r: Step)
    ensures r.processed <= |d|
    decreases |d|
  {
    if !Complete(sign, d) then Step([], 0)
    else
      var more := if PacketType(d) in known then Dispatched(sign, known, Behind(d)) else Step([], 0);
      Step(CallsFor(known, d) + more.calls, HEADER_SIZE + PayloadSize(d) + more.processed)
  }

  /** It stops only in front of what is no packet, or after having taken some bytes. */
  lemma {:induction false} DispatchedPart(sign: Byte, known: map<nat, Handler>, d: seq<Byte>)
    ensures var r := Dispatched(sign, known, d);
      && Stream(sign, known, d) == After(r.calls, Stream(sign, known, d[r.processed..]))
      && (r.processed == 0 ==> !Complete(sign, d) && r.calls == [])
    decreases |d|
  {
    if Complete(sign, d) {
      var r := Dispatched(sign, known, d);
      if PacketType(d) in known {
        var more := Dispatched(sign, known, Behind(d));
        DispatchedPart(sign, known, Behind(d));
        assert d[r.processed..] == Behind(d)[more.processed..];
        AfterAfter(CallsFor(known, d), more.calls, Stream(sign, known, d[r.processed..]));
      } else {
        assert d[r.processed..] == Behind(d);
        AfterAfter(CallsFor(known, d), [], Stream(sign, known, Behind(d)));
      }
    } else {
      assert d[0..] == d;
      AfterAfter([], [], Stream(sign, known, d));
    }
  }

  // Byte by byte

  /** The signature, the size and the type, most significant byte first, and the payload. */
  function Frame(sign: Byte, s1: Byte, s0: Byte, t1: Byte, t0: Byte, payload: seq<Byte>): seq<Byte> {
    [sign, s1, s0, t1, t0] + payload
  }

  lemma FrameParts(sign: Byte, s1: Byte, s0: Byte, t1: Byte, t0: Byte, payload: seq<Byte>, tail: seq<Byte>)
    requires |payload| == s1 * 256 + s0
    ensures var d := Frame(sign, s1, s0, t1, t0, payload) + tail;
      Complete(sign, d) && Front(d) == payload && Behind(d) == tail && PacketType(d) == t1 * 256 + t0 && PayloadSize(d) == |payload|
  {
    var d := Frame(sign, s1, s0, t1, t0, payload) + tail;
    assert d == [sign, s1, s0, t1, t0] + (payload + tail);
    assert d[5..] == payload + tail;
    assert Front(d) == d[5..][..|payload|] && Behind(d) == d[5..][|payload|..];
  }

  /** A whole packet leads to the call of its handler, with its payload, and what follows it means what it means alone. */
  lemma {:induction false} FirstPacket(sign: Byte, known: map<nat, Handler>, s1: Byte, s0: Byte, t1: Byte, t0: Byte, payload: seq<Byte>, tail: seq<Byte>)
    requires |payload| == s1 * 256 + s0
    ensures var d, t := Frame(sign, s1, s0, t1, t0, payload) + tail, t1 * 256 + t0;
      && Stream(sign, known, d) ==
         After(if t in known then [Call(known[t], t, payload)] else [], Stream(sign, known, tail))
      && var more := Dispatched(sign, known, tail);
         Dispatched(sign, known, d) ==
         if t in known then Step([Call(known[t], t, payload)] + more.calls, 5 + |payload| + more.processed) else Step([], 5 + |payload|)
  {
    hide Frame, Front, Behind, PacketType, PayloadSize, Complete;
    FrameParts(sign, s1, s0, t1, t0, payload, tail);
    FrontStep(sign, known, Frame(sign, s1, s0, t1, t0, payload) + tail);
  }

  lemma FrontStep(sign: Byte, known: map<nat, Handler>, d: seq<Byte>)
    requires Complete(sign, d)
    ensures Stream(sign, known, d) == After(CallsFor(known, d), Stream(sign, known, Behind(d)))
    ensures var more := Dispatched(sign, known, Behind(d));
      Dispatched(sign, known, d) ==
      if PacketType(d) in known then Step(CallsFor(known, d) + more.calls, HEADER_SIZE + PayloadSize(d) + more.processed)
      else Step([], HEADER_SIZE + PayloadSize(d))
  {
  }

  /** Without a whole packet in front, with the right signature, nothing is called and all is left. */
  lemma NoPacket(sign: Byte, known: map<nat, Handler>, d: seq<Byte>)
    requires |d| < 5 || d[0] != sign || d[1] * 256 + d[2] > |d| - 5
    ensures Stream(sign, known, d) == Outcome([], d) && Dispatched(sign, known, d) == Step([], 0)
  {
  }
}

/** The dispatcher and the receiving side of a connection. */
module Receiving {
  import opened Framing
  import opened AutoBuffers

  /** `cbDispatchT`; handler calls are recorded in order. */
  class Dispatcher {
    const sign: Byte
    var processCommand: map<nat, Handler>
    var calls: seq<Call>

    constructor (sign: Byte)
      ensures this.sign == sign && processCommand == map[] && calls == []
    {
      this.sign := sign;
      processCommand, calls := map[], [];
    }

    method RegisterProcessCommand(packetType: nat, handler: Handler)
      modifies this`processCommand
      ensures processCommand == old(processCommand)[packetType := handler]
    {
      processCommand := processCommand[packetType := handler];
    }

    /** `DoProcessCB` on `size` bytes from `start` on. */
    method DoProcess(buffer: array<Byte>, start: nat, size: nat) returns (processed: nat)
      requires start + size <= buffer.Length
      modifies this`calls
      ensures var r := Dispatched(sign, processCommand, buffer[start..start + size]);
        calls == old(calls) + r.calls && processed == r.processed
    {
      hide Dispatched, PacketType, PayloadSize, Wide;
      processed := 0;
      ghost var all := Dispatched(sign, processCommand, buffer[start..start + size]);
      var p, n := start, size;
      while n >= HEADER_SIZE
        invariant start <= p && n >= 0 && p + n == start + size && processed == p - start
        invariant calls + Dispatched(sign, processCommand, buffer[p..p + n]).calls == old(calls) + all.calls
        invariant processed + Dispatched(sign, processCommand, buffer[p..p + n]).processed == all.processed
      {
        ghost var here := buffer[p..p + n];
        HeaderAt(buffer, p, n, here);
        DispatchedStep(sign, processCommand, here, calls);
        if buffer[p] != sign {
          return;
        }
        var sizePacket, typePacket := Wide(buffer[p + 1], buffer[p + 2]), Wide(buffer[p + 3], buffer[p + 4]);
        p, n := p + HEADER_SIZE, n - HEADER_SIZE;
        if sizePacket > n {
          return;
        }
        processed := processed + HEADER_SIZE + sizePacket;
        if typePacket !in processCommand {
          return;
        }
        calls := calls + [Call(processCommand[typePacket], typePacket, buffer[p..p + sizePacket])];
        p, n := p + sizePacket, n - sizePacket;
      }
      DispatchedStep(sign, processCommand, buffer[p..p + n], calls);
    }
  }

  /** One turn of the loop. */
  lemma DispatchedStep(sign: Byte, known: map<nat, Handler>, d: seq<Byte>, calls: seq<Call>)
    ensures !Complete(sign, d) ==> Dispatched(sign, known, d) == Step([], 0) && calls + [] == calls
    ensures Complete(sign, d) && PacketType(d) !in known ==>
              Dispatched(sign, known, d) == Step([], HEADER_SIZE + PayloadSize(d)) && calls + [] == calls
    ensures Complete(sign, d) && PacketType(d) in known ==>
              var call, more := Call(known[PacketType(d)], PacketType(d), Front(d)), Dispatched(sign, known, Behind(d));
              && Dispatched(sign, known, d).processed == HEADER_SIZE + PayloadSize(d) + more.processed
              && calls + Dispatched(sign, known, d).calls == (calls + [call]) + more.calls
  {
  }

  lemma StreamStuck(sign: Byte, known: map<nat, Handler>, d: seq<Byte>, calls: seq<Call>)
    requires !Complete(sign, d)
    ensures After(calls, Stream(sign, known, d)) == Outcome(calls, d)
  {
    assert calls + [] == calls;
  }

  lemma HeaderAt(buffer: array<Byte>, p: nat, n: nat, here: seq<Byte>)
    requires p + n <= buffer.Length && here == buffer[p..p + n] && n >= HEADER_SIZE
    ensures here[0] == buffer[p]
    ensures PayloadSize(here) == Wide(buffer[p + 1], buffer[p + 2]) && PacketType(here) == Wide(buffer[p + 3], buffer[p + 4])
    ensures HEADER_SIZE + PayloadSize(here) <= n ==>
      buffer[p + HEADER_SIZE..p + HEADER_SIZE + PayloadSize(here)] == Front(here)
      && Behind(here) == buffer[p + HEADER_SIZE + PayloadSize(here)..p + n]
  {
    forall k | 0 <= k < n ensures here[k] == buffer[p + k] {}
    var e := HEADER_SIZE + PayloadSize(here);
    if e <= n {
      assert here[HEADER_SIZE..e] == buffer[p + HEADER_SIZE..p + e];
      assert here[e..] == buffer[p + e..p + n];
    }
  }

  /** The receiving side of `connection`. */
  class Connection {
    const dispatcher: Dispatcher
    const socketBuffer: AutoBuffer<Byte>
    var receiveBytes: nat

    ghost predicate Valid()
      reads this, socketBuffer
    {
      socketBuffer.Valid()
    }

    constructor (dispatcher: Dispatcher)
      ensures this.dispatcher == dispatcher && receiveBytes == 0 && fresh(socketBuffer) && fresh(socketBuffer.buffer)
      ensures Valid() && socketBuffer.Contents() == []
    {
      this.dispatcher := dispatcher;
      socketBuffer := new AutoBuffer<Byte>();
      receiveBytes := 0;
    }

    /** `compile_buffer_data`: all there is to dispatch is dispatched and cut off. */
    method CompileBufferData()
      requires Valid()
      modifies socketBuffer, socketBuffer.buffer, dispatcher`calls
      ensures Valid() && socketBuffer.buffer == old(socketBuffer.buffer)
      ensures Outcome(dispatcher.calls, socketBuffer.Contents()) ==
              After(old(dispatcher.calls), Stream(dispatcher.sign, dispatcher.processCommand, old(socketBuffer.Contents())))
    {
      hide Stream, Dispatched;
      ghost var sign, known, data := dispatcher.sign, dispatcher.processCommand, socketBuffer.Contents();
      ghost var all := After(dispatcher.calls, Stream(sign, known, data));
      var s := 0;
      assert data[0..] == data;
      while socketBuffer.readyPosition > s
        invariant s <= |data| && Valid() && socketBuffer.Contents() == data && socketBuffer.buffer == old(socketBuffer.buffer)
        invariant After(dispatcher.calls, Stream(sign, known, data[s..])) == all
        decreases |data| - s
      {
        ghost var before := dispatcher.calls;
        var processed := dispatcher.DoProcess(socketBuffer.buffer, s, socketBuffer.readyPosition - s);
        assert socketBuffer.buffer[s..s + (socketBuffer.readyPosition - s)] == data[s..];
        ghost var r := Dispatched(sign, known, data[s..]);
        DispatchedPart(sign, known, data[s..]);
        assert data[s..][processed..] == data[s + processed..];
        AfterAfter(before, r.calls, Stream(sign, known, data[s + processed..]));
        if processed == 0 {
          break;
        }
        s := s + processed;
      }
      StreamStuck(sign, known, data[s..], dispatcher.calls);
      socketBuffer.CutFromHead(s);
    }

    /** `stub_conn_read`: what has arrived is put into the buffer, counted and compiled. */
    method Read(segment: seq<Byte>)
      requires Valid()
      modifies this`receiveBytes, socketBuffer, socketBuffer.buffer, dispatcher`calls
      ensures Valid() && receiveBytes == old(receiveBytes) + |segment|
      ensures socketBuffer.buffer == old(socketBuffer.buffer) || fresh(socketBuffer.buffer)
      ensures segment != [] ==>
        Outcome(dispatcher.calls, socketBuffer.Contents()) ==
        After(old(dispatcher.calls), Stream(dispatcher.sign, dispatcher.processCommand, old(socketBuffer.Contents()) + segment))
      ensures segment == [] ==> dispatcher.calls == old(dispatcher.calls) && socketBuffer.Contents() == old(socketBuffer.Contents())
    {
      if |segment| != 0 {
        socketBuffer.CheckSize(socketBuffer.readyPosition + |segment|, DEFAULT_GRANULATE);
        ghost var was := socketBuffer.Contents();
        socketBuffer.Fill(socketBuffer.readyPosition, segment);
        socketBuffer.DecrementFreeSize(|segment|);
        receiveBytes := receiveBytes + |segment|;
        Filled(socketBuffer.buffer[..], was, segment);
        assert socketBuffer.Contents() == was + segment;
        CompileBufferData();
      }
    }

    /** A whole run of the read callback: the stream decides, not its segments. */
    method Feed(segments: seq<seq<Byte>>)
      requires Valid() && !Complete(dispatcher.sign, socketBuffer.Contents())
      modifies this`receiveBytes, socketBuffer, socketBuffer.buffer, dispatcher`calls
      ensures Valid() && receiveBytes == old(receiveBytes) + |Concat(segments)|
      ensures Outcome(dispatcher.calls, socketBuffer.Contents()) ==
        After(old(dispatcher.calls),
              Stream(dispatcher.sign, dispatcher.processCommand, old(socketBuffer.Contents()) + Concat(segments)))
    {
      hide Stream, Complete;
      ghost var sign, known, kept := dispatcher.sign, dispatcher.processCommand, socketBuffer.Contents();
      ghost var all := After(dispatcher.calls, Fed(sign, known, kept, segments));
      SegmentationIndependent(sign, known, kept, segments);
      assert segments[0..] == segments;
      var i := 0;
      while i < |segments|
        invariant i <= |segments| && Valid() && !Complete(sign, socketBuffer.Contents())
        invariant socketBuffer.buffer == old(socketBuffer.buffer) || fresh(socketBuffer.buffer)
        invariant receiveBytes + |Concat(segments[i..])| == old(receiveBytes) + |Concat(segments)|
        invariant After(dispatcher.calls, Fed(sign, known, socketBuffer.Contents(), segments[i..])) == all
      {
        ghost var was, calls := socketBuffer.Contents(), dispatcher.calls;
        assert segments[i..][0] == segments[i] && segments[i..][1..] == segments[i + 1..];
        EmptySegment(sign, known, was, calls);
        ghost var first := Stream(sign, known, was + segments[i]);
        AfterAfter(calls, first.calls, Fed(sign, known, first.rest, segments[i + 1..]));
        Read(segments[i]);
        i := i + 1;
      }
      assert dispatcher.calls + [] == dispatcher.calls;
    }
  }

  /** The callback on no bytes does what a stream with nothing more does. */
  lemma EmptySegment(sign: Byte, known: map<nat, Handler>, was: seq<Byte>, calls: seq<Call>)
    requires !Complete(sign, was)
    ensures After(calls, Stream(sign, known, was + [])) == Outcome(calls, was)
  {
    assert was + [] == was && calls + [] == calls;
  }

  lemma Filled(b: seq<Byte>, was: seq<Byte>, segment: seq<Byte>)
    requires |was| + |segment| <= |b| && b[..|was|] == was && b[|was|..|was| + |segment|] == segment
    ensures b[..|was| + |segment|] == was + segment
  {
    assert b[..|was| + |segment|] == b[..|was|] + b[|was|..|was| + |segment|];
  }
}
