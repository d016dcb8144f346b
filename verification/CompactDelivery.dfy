/** A whole run: messages written, sent, received in pieces, dispatched and parsed. */
module Delivery {
  import opened Framing
  import opened Receiving
  import opened Chunks

  /** What each handler sees: the type of the packet and the callbacks of its parser. */
  datatype Seen = Seen(packetType: nat, values: seq<Value>)

  /** The messages with a handler, in order. */
  function Expected(known: map<nat, Handler>, ms: seq<Message>): seq<Seen> {
    if ms == [] then []
    else (if ms[0].packetType in known then [Seen(ms[0].packetType, ValuesOf(ms[0].fields))] else []) + Expected(known, ms[1..])
  }

  function SeenIn(calls: seq<Call>): seq<Seen> {
    if calls == [] then [] else [Seen(calls[0].packetType, Parse(calls[0].payload))] + SeenIn(calls[1..])
  }

  lemma {:induction false} ExpectedSeen(known: map<nat, Handler>, ms: seq<Message>)
    requires forall m | m in ms :: MessageOk(m)
    ensures SeenIn(Deliveries(known, ms)) == Expected(known, ms)
  {
    hide Parse, ValuesOf;
    if ms != [] {
      assert MessageOk(ms[0]);
      ParseUndoes(ms[0].fields);
      ExpectedSeen(known, ms[1..]);
      var rest := Deliveries(known, ms[1..]);
      if ms[0].packetType in known {
        var call := Call(known[ms[0].packetType], ms[0].packetType, EncodedAll(ms[0].fields));
        assert Deliveries(known, ms) == [call] + rest && ([call] + rest)[1..] == rest;
      } else {
        assert Deliveries(known, ms) == rest;
      }
    }
  }

  /** What the append operations write so that it is read as it was. */
  predicate Writable(f: Field) {
    f.Str? || f.Num?
  }

  /** One message written with the append operations. */
  method WriteMessage(m: Message) returns (chunk: ChunkOut)
    requires forall f | f in m.fields :: Writable(f)
    ensures fresh(chunk) && chunk.Valid() && chunk.packet.Contents() == EncodedAll(m.fields)
  {
    hide Encoded;
    chunk := new ChunkOut();
    var i := 0;
    assert m.fields[0..] == m.fields && [] + EncodedAll(m.fields) == EncodedAll(m.fields);
    while i < |m.fields|
      invariant i <= |m.fields| && chunk.Valid() && fresh(chunk) && fresh(chunk.packet) && fresh(chunk.packet.buffer)
      invariant chunk.packet.Contents() + EncodedAll(m.fields[i..]) == EncodedAll(m.fields)
    {
      ghost var was := chunk.packet.Contents();
      assert m.fields[i..][0] == m.fields[i] && m.fields[i..][1..] == m.fields[i + 1..];
      assert m.fields[i] in m.fields;
      match m.fields[i] {
        case Str(id, value) => chunk.AppendChunkString(id, value);
        case Num(id, number) => chunk.AppendChunkByte(id, number);
      }
      assert was + (Encoded(m.fields[i]) + EncodedAll(m.fields[i + 1..])) == chunk.packet.Contents() + EncodedAll(m.fields[i + 1..]);
      i := i + 1;
    }
    assert m.fields[i..] == [];
    assert chunk.packet.Contents() + [] == chunk.packet.Contents();
  }

  /** All messages sent one after the other. */
  method SendAll(sign: Byte, ms: seq<Message>) returns (sent: seq<Byte>)
    requires forall m, f | m in ms && f in m.fields :: Writable(f)
    ensures sent == Wire(sign, ms)
  {
    hide PacketOf, EncodedAll;
    var sender := new Sender();
    var i := 0;
    assert ms[0..] == ms && [] + Wire(sign, ms) == Wire(sign, ms);
    while i < |ms|
      invariant i <= |ms| && fresh(sender) && sender.sent + Wire(sign, ms[i..]) == Wire(sign, ms)
    {
      ghost var was := sender.sent;
      assert ms[i..][0] == ms[i] && ms[i..][1..] == ms[i + 1..] && ms[i] in ms;
      var chunk := WriteMessage(ms[i]);
      sender.SendChunkInPacket(sign, ms[i].packetType, chunk);
      ghost var packet := PacketOf(sign, ms[i].packetType, EncodedAll(ms[i].fields));
      assert was + (packet + Wire(sign, ms[i + 1..])) == (was + packet) + Wire(sign, ms[i + 1..]);
      i := i + 1;
    }
    assert ms[i..] == [] && sender.sent + [] == sender.sent;
    sent := sender.sent;
  }

  /** Each payload parsed as its handler does. */
  method ParseCalls(calls: seq<Call>) returns (seen: seq<Seen>)
    ensures seen == SeenIn(calls)
  {
    hide Parse;
    seen := [];
    var i := 0;
    assert calls[0..] == calls && [] + SeenIn(calls) == SeenIn(calls);
    while i < |calls|
      invariant i <= |calls| && seen + SeenIn(calls[i..]) == SeenIn(calls)
    {
      assert calls[i..][0] == calls[i] && calls[i..][1..] == calls[i + 1..];
      var payload := calls[i].payload;
      var buffer := new Byte[|payload|](k requires 0 <= k < |payload| => payload[k]);
      var chunk := new ChunkIn();
      chunk.ParsePacket(buffer, 0, buffer.Length);
      assert buffer[0..0 + buffer.Length] == payload && [] + Parse(payload) == Parse(payload);
      ghost var was := seen;
      seen := seen + [Seen(calls[i].packetType, chunk.values)];
      assert was + ([Seen(calls[i].packetType, chunk.values)] + SeenIn(calls[i + 1..])) == seen + SeenIn(calls[i + 1..]);
      i := i + 1;
    }
    assert calls[i..] == [] && seen + [] == seen;
  }

  /**
   * Messages written by one side, sent, and received by the other in any
   * pieces: the handlers see the fields as written, and no byte is left over.
   */
  method Deliver(dispatcher: Dispatcher, ms: seq<Message>, segments: seq<seq<Byte>>)
    returns (seen: seq<Seen>, left: seq<Byte>)
    requires forall m | m in ms :: MessageOk(m) && forall f | f in m.fields :: Writable(f)
    requires Concat(segments) == Wire(dispatcher.sign, ms)
    modifies dispatcher`calls
    ensures seen == Expected(dispatcher.processCommand, ms) && left == []
  {
    hide Stream, Wire, Complete, Deliveries;
    ghost var sign, known := dispatcher.sign, dispatcher.processCommand;
    var sent := SendAll(dispatcher.sign, ms);
    assert Concat(segments) == sent;
    dispatcher.calls := [];
    var connection := new Connection(dispatcher);
    NothingComplete(sign);
    connection.Feed(segments);
    assert [] + Concat(segments) == Wire(sign, ms);
    StreamOfWire(sign, known, ms);
    assert [] + Deliveries(known, ms) == Deliveries(known, ms);
    ExpectedSeen(known, ms);
    seen := ParseCalls(dispatcher.calls);
    left := connection.socketBuffer.buffer[..connection.socketBuffer.readyPosition];
  }

  lemma NothingComplete(sign: Byte)
    ensures !Complete(sign, [])
  {
  }
}
