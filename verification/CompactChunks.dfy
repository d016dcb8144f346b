/** The chunks within a packet: the writer, the parser, and delivery from end to end. */
module Chunks {
  import opened Framing
  import opened AutoBuffers

  const CHUNK_TYPE_BYTE: Byte := 0x01
  const CHUNK_TYPE_SHORT: Byte := 0x02
  const CHUNK_TYPE_INTEGER: Byte := 0x03
  const CHUNK_TYPE_LONG: Byte := 0x04
  const CHUNK_TYPE_STRING: Byte := 0x05
  const CHUNK_TYPE_BINARY: Byte := 0x07
  const CHUNK_HEADER_SIZE := 4

  /** A callback of the parser. */
  datatype Value =
    | Value8(id: Byte, number: nat)
    | Value16(id: Byte, number: nat)
    | Value32(id: Byte, number: nat)
    | Value64(id: Byte, number: nat)
    | Text(id: Byte, bytes: seq<Byte>)
    | Binary(id: Byte, bytes: seq<Byte>)

  /** `ntohl` on four bytes of the wire. */
  function Wide4(d: seq<Byte>): nat
    requires |d| >= 4
  {
    Wide(d[0], d[1]) * 0x1_0000 + Wide(d[2], d[3])
  }

  /** The two halves are turned round one by one, so the low half comes first. */
  function Wide8(d: seq<Byte>): nat
    requires |d| >= 8
  {
    Wide4(d[4..]) * 0x1_0000_0000 + Wide4(d)
  }

  /** How many bytes the parser takes for a value, and the callback; nothing for what it does not know. */
  datatype Reading = Reading(taken: nat, values: seq<Value>)

  /** The number types take their own size, whatever the length says, if it is there. */
  function ReadValue(id: Byte, chunkType: Byte, length: nat, d: seq<Byte>): (r: Reading)
    requires length <= |d|
    ensures r.taken <= |d|
  {
    if chunkType == CHUNK_TYPE_BYTE then
      if |d| >= 1 then Reading(1, [Value8(id, d[0])]) else Reading(0, [])
    else if chunkType == CHUNK_TYPE_SHORT then
      if |d| >= 2 then Reading(2, [Value16(id, Wide(d[0], d[1]))]) else Reading(0, [])
    else if chunkType == CHUNK_TYPE_INTEGER then
      if |d| >= 4 then Reading(4, [Value32(id, Wide4(d))]) else Reading(0, [])
    else if chunkType == CHUNK_TYPE_LONG then
      if |d| >= 8 then Reading(8, [Value64(id, Wide8(d))]) else Reading(0, [])
    else if chunkType == CHUNK_TYPE_STRING then Reading(length, [Text(id, d[..length])])
    else if chunkType == CHUNK_TYPE_BINARY then Reading(length, [Binary(id, d[..length])])
    else Reading(length, [])
  }

  /** What a payload means: the callbacks, up to the first chunk that is not all there. */
  function Parse(d: seq<Byte>): seq<Value>
    decreases |d|
  {
    if |d| < CHUNK_HEADER_SIZE || Wide(d[2], d[3]) > |d| - CHUNK_HEADER_SIZE then []
    else
      var r := ReadValue(d[0], d[1], Wide(d[2], d[3]), d[CHUNK_HEADER_SIZE..]);
      r.values + Parse(d[CHUNK_HEADER_SIZE + r.taken..])
  }

  /** `cbChunkIn`, recording its callbacks. */
  class ChunkIn {
    var values: seq<Value>

    constructor ()
      ensures values == []
    {
      values := [];
    }

    /** `ParsePacket`. */
    method ParsePacket(buffer: array<Byte>, start: nat, size: nat)
      requires start + size <= buffer.Length
      modifies this`values
      ensures values == old(values) + Parse(buffer[start..start + size])
    {
      hide Parse, ReadValue;
      ghost var all := values + Parse(buffer[start..start + size]);
      var p, n := start, size;
      while true
        invariant start <= p && n >= 0 && p + n == start + size
        invariant values + Parse(buffer[p..p + n]) == all
        decreases n
      {
        ghost var here := buffer[p..p + n];
        ParseStep(values, here);
        if n < 1 { break; }
        var id := buffer[p];
        p, n := p + 1, n - 1;
        if n < 1 { break; }
        var chunkType := buffer[p];
        p, n := p + 1, n - 1;
        if n < 2 { break; }
        var length := Wide(buffer[p], buffer[p + 1]);
        p, n := p + 2, n - 2;
        if length > n { break; }
        assert here[CHUNK_HEADER_SIZE..] == buffer[p..p + n];
        var taken := GetValue(buffer, p, n, id, chunkType, length);
        assert here[CHUNK_HEADER_SIZE + taken..] == buffer[p + taken..p + n];
        p, n := p + taken, n - taken;
      }
    }

    /** The switch over the chunk types. */
    method GetValue(buffer: array<Byte>, p: nat, n: nat, id: Byte, chunkType: Byte, length: nat) returns (taken: nat)
      requires length <= n && p + n <= buffer.Length
      modifies this`values
      ensures var r := ReadValue(id, chunkType, length, buffer[p..p + n]);
        taken == r.taken && values == old(values) + r.values
    {
      var d := buffer[p..p + n];
      assert values + [] == values;
      taken := 0;
      match chunkType
      case 0x01 =>
        if n >= 1 { values, taken := values + [Value8(id, d[0])], 1; }
      case 0x02 =>
        if n >= 2 { values, taken := values + [Value16(id, Wide(d[0], d[1]))], 2; }
      case 0x03 =>
        if n >= 4 { values, taken := values + [Value32(id, Wide4(d))], 4; }
      case 0x04 =>
        if n >= 8 { values, taken := values + [Value64(id, Wide8(d))], 8; }
      case 0x05 =>
        values, taken := values + [Text(id, d[..length])], length;
      case 0x07 =>
        values, taken := values + [Binary(id, d[..length])], length;
      case _ =>
        taken := length;
    }
  }

  lemma HeaderJoined(was: seq<Byte>, id: Byte, chunkType: Byte, size: Word)
    ensures ((was + [id]) + [chunkType]) + Split(size) == was + ChunkHeader(id, chunkType, size)
  {
  }

  lemma TextJoined(was: seq<Byte>, id: Byte, value: seq<Byte>)
    ensures (was + ChunkHeader(id, CHUNK_TYPE_STRING, |value| % 0x1_0000)) + value == was + Encoded(Str(id, value))
  {
    hide Split;
    assert |value| % 0x1_0000 % 0x1_0000 == |value| % 0x1_0000;
  }

  lemma ParseStep(values: seq<Value>, d: seq<Byte>)
    ensures |d| < CHUNK_HEADER_SIZE || Wide(d[2], d[3]) > |d| - CHUNK_HEADER_SIZE ==> values + Parse(d) == values
    ensures |d| >= CHUNK_HEADER_SIZE && Wide(d[2], d[3]) <= |d| - CHUNK_HEADER_SIZE ==>
              var r := ReadValue(d[0], d[1], Wide(d[2], d[3]), d[CHUNK_HEADER_SIZE..]);
              values + Parse(d) == (values + r.values) + Parse(d[CHUNK_HEADER_SIZE + r.taken..])
  {
    assert values + [] == values;
  }

  // The writer

  /**
   * What may stand in a packet. Numbers of more than one byte are in network
   * order, whatever size is announced for them; of a long one the low half
   * comes first. `Foreign` is a whole chunk of a type the parser does not know.
   */
  datatype Field =
    | Str(id: Byte, value: seq<Byte>)
    | Bin(id: Byte, value: seq<Byte>)
    | Num(id: Byte, number: Byte)
    | Short(id: Byte, size: nat, short: nat)
    | Integer(id: Byte, size: nat, low: nat)
    | Long(id: Byte, size: nat, low: nat, high: nat)
    | Foreign(id: Byte, chunkType: Byte, body: seq<Byte>)

  function ChunkHeader(id: Byte, chunkType: Byte, size: nat): (h: seq<Byte>)
    ensures var announced := size % 0x1_0000; h == [id, chunkType, announced / 256, announced % 256]
    ensures |h| == CHUNK_HEADER_SIZE && (size < 0x1_0000 ==> h == [id, chunkType, size / 256, size % 256])
  {
    [id, chunkType] + Split(size % 0x1_0000)
  }

  /** A number with its most significant byte first. */
  function NetworkOrder(v: nat, size: nat): (bytes: seq<Byte>)
    ensures |bytes| == size
  {
    if size == 0 then [] else NetworkOrder(v / 256, size - 1) + [v % 256]
  }

  function Encoded(f: Field): seq<Byte> {
    match f
    case Str(id, value) => ChunkHeader(id, CHUNK_TYPE_STRING, |value|) + value
    case Bin(id, value) => ChunkHeader(id, CHUNK_TYPE_BINARY, |value|) + value
    case Num(id, number) => ChunkHeader(id, CHUNK_TYPE_BYTE, 1) + [number]
    case Short(id, size, short) => ChunkHeader(id, CHUNK_TYPE_SHORT, size) + NetworkOrder(short, 2)
    case Integer(id, size, low) => ChunkHeader(id, CHUNK_TYPE_INTEGER, size) + NetworkOrder(low, 4)
    case Long(id, size, low, high) => ChunkHeader(id, CHUNK_TYPE_LONG, size) + (NetworkOrder(low, 4) + NetworkOrder(high, 4))
    case Foreign(id, chunkType, body) => ChunkHeader(id, chunkType, |body|) + body
  }

  function EncodedAll(fs: seq<Field>): seq<Byte> {
    if fs == [] then [] else Encoded(fs[0]) + EncodedAll(fs[1..])
  }

  /** The callback that a field is to lead to. */
  function ValueOf(f: Field): seq<Value> {
    match f
    case Str(id, value) => [Text(id, value)]
    case Bin(id, value) => [Binary(id, value)]
    case Num(id, number) => [Value8(id, number)]
    case Short(id, _, short) => [Value16(id, short)]
    case Integer(id, _, low) => [Value32(id, low)]
    case Long(id, _, low, high) => [Value64(id, high * 0x1_0000_0000 + low)]
    case Foreign(_, _, _) => []
  }

  function ValuesOf(fs: seq<Field>): seq<Value> {
    if fs == [] then [] else ValueOf(fs[0]) + ValuesOf(fs[1..])
  }

  predicate Unrecognised(chunkType: Byte) {
    chunkType !in {CHUNK_TYPE_BYTE, CHUNK_TYPE_SHORT, CHUNK_TYPE_INTEGER, CHUNK_TYPE_LONG, CHUNK_TYPE_STRING, CHUNK_TYPE_BINARY}
  }

  /** Numbers and sizes that fit their field, and foreign types that are foreign. */
  predicate Fitting(f: Field) {
    match f
    case Str(_, value) => |value| < 0x1_0000
    case Bin(_, value) => |value| < 0x1_0000
    case Num(_, _) => true
    case Short(_, size, short) => size < 0x1_0000 && short < 0x1_0000
    case Integer(_, size, low) => size < 0x1_0000 && low < 0x1_0000_0000
    case Long(_, size, low, high) => size < 0x1_0000 && low < 0x1_0000_0000 && high < 0x1_0000_0000
    case Foreign(_, chunkType, body) => |body| < 0x1_0000 && Unrecognised(chunkType)
  }

  /** And no more is announced than there is. */
  predicate Sendable(f: Field) {
    Fitting(f) && SizeOf(f) <= |BodyOf(f)|
  }

  lemma HeaderRead(id: Byte, chunkType: Byte, size: Word, rest: seq<Byte>)
    ensures var d := ChunkHeader(id, chunkType, size) + rest;
      && d[0] == id && d[1] == chunkType && Wide(d[2], d[3]) == size && d[CHUNK_HEADER_SIZE..] == rest
  {
    hide Wide, Split;
    var h := ChunkHeader(id, chunkType, size);
    assert size % 0x1_0000 == size;
    assert h == [id, chunkType] + Split(size);
    assert h[2] == Split(size)[0] && h[3] == Split(size)[1];
    assert (h + rest)[CHUNK_HEADER_SIZE..] == rest;
  }

  function BodyOf(f: Field): seq<Byte> {
    match f
    case Str(_, value) => value
    case Bin(_, value) => value
    case Num(_, number) => [number]
    case Short(_, _, short) => NetworkOrder(short, 2)
    case Integer(_, _, low) => NetworkOrder(low, 4)
    case Long(_, _, low, high) => NetworkOrder(low, 4) + NetworkOrder(high, 4)
    case Foreign(_, _, body) => body
  }

  function TypeOf(f: Field): Byte {
    match f
    case Str(_, _) => 0x05
    case Bin(_, _) => 0x07
    case Num(_, _) => 0x01
    case Short(_, _, _) => 0x02
    case Integer(_, _, _) => 0x03
    case Long(_, _, _, _) => 0x04
    case Foreign(_, chunkType, _) => chunkType
  }

  /** The size in the header. */
  function SizeOf(f: Field): nat {
    if f.Short? || f.Integer? || f.Long? then f.size else |BodyOf(f)|
  }

  lemma EncodedForm(f: Field)
    ensures Encoded(f) == ChunkHeader(f.id, TypeOf(f), SizeOf(f)) + BodyOf(f)
  {
    hide ChunkHeader, NetworkOrder;
  }

  /** A chunk in front of whatever follows it leads to its own callback. */
  lemma {:induction false} ParseField(f: Field, tail: seq<Byte>)
    requires Fitting(f) && SizeOf(f) <= |BodyOf(f)| + |tail|
    ensures Parse(Encoded(f) + tail) == ValueOf(f) + Parse(tail)
  {
    hide Parse, ReadValue, Wide, Encoded, BodyOf, NetworkOrder, ChunkHeader, ValueOf;
    var d, body := Encoded(f) + tail, BodyOf(f);
    EncodedForm(f);
    SizeFits(f);
    assert d == ChunkHeader(f.id, TypeOf(f), SizeOf(f)) + (body + tail);
    HeaderRead(f.id, TypeOf(f), SizeOf(f), body + tail);
    ParseStep([], d);
    BodyRead(f, body + tail);
    assert d[CHUNK_HEADER_SIZE + |body|..] == tail;
    assert [] + Parse(d) == Parse(d) && [] + ValueOf(f) == ValueOf(f);
  }

  lemma SizeFits(f: Field)
    requires Fitting(f)
    ensures SizeOf(f) < 0x1_0000
  {
  }

  lemma BodyRead(f: Field, d: seq<Byte>)
    requires Fitting(f) && SizeOf(f) <= |d| && |BodyOf(f)| <= |d| && d[..|BodyOf(f)|] == BodyOf(f)
    ensures ReadValue(f.id, TypeOf(f), SizeOf(f), d) == Reading(|BodyOf(f)|, ValueOf(f))
  {
    hide NetworkOrder, Wide;
    forall k | 0 <= k < |BodyOf(f)| ensures d[k] == BodyOf(f)[k] { assert d[..|BodyOf(f)|][k] == d[k]; }
    match f
    case Short(_, _, short) => NetworkTwo(short);
    case Integer(_, _, low) => NetworkFour(low, d);
    case Long(_, _, low, high) =>
      NetworkFour(low, d);
      assert forall k | 0 <= k < 4 :: d[4..][k] == NetworkOrder(high, 4)[k];
      NetworkFour(high, d[4..]);
    case _ =>
  }

  lemma NetworkTwo(v: nat)
    requires v < 0x1_0000
    ensures var b := NetworkOrder(v, 2); Wide(b[0], b[1]) == v
  {
    assert NetworkOrder(v, 2) == NetworkOrder(v / 256, 1) + [v % 256];
    assert NetworkOrder(v / 256, 1) == NetworkOrder(v / 256 / 256, 0) + [v / 256 % 256];
  }

  lemma NetworkFour(v: nat, d: seq<Byte>)
    requires v < 0x1_0000_0000 && |d| >= 4 && forall k | 0 <= k < 4 :: d[k] == NetworkOrder(v, 4)[k]
    ensures Wide4(d) == v
  {
    hide Wide;
    var b, high := NetworkOrder(v, 4), NetworkOrder(v / 0x1_0000, 2);
    assert v / 256 / 256 == v / 0x1_0000;
    assert b == NetworkOrder(v / 256, 3) + [v % 256] && NetworkOrder(v / 256, 3) == high + [v / 256 % 256];
    NetworkTwo(v / 0x1_0000);
    WideOf(v);
    assert b[0] == high[0] && b[1] == high[1] && b[2] == v / 256 % 256 && b[3] == v % 256;
  }

  lemma WideOf(v: nat)
    ensures Wide(v / 256 % 256, v % 256) == v % 0x1_0000
    ensures v == v / 0x1_0000 * 0x1_0000 + v % 0x1_0000
  {
  }

  /** A number whose bytes are not all there is passed over, and what there is of them is taken for chunks. */
  lemma {:induction false} NumberMissing(id: Byte, chunkType: Byte, size: nat, rest: seq<Byte>)
    requires size <= |rest|
    requires (chunkType == 0x01 && |rest| < 1) || (chunkType == 0x02 && |rest| < 2) || (chunkType == 0x03 && |rest| < 4) || (chunkType == 0x04 && |rest| < 8)
    ensures Parse(ChunkHeader(id, chunkType, size) + rest) == Parse(rest)
  {
    hide Parse, Wide, ChunkHeader;
    var d := ChunkHeader(id, chunkType, size) + rest;
    HeaderRead(id, chunkType, size, rest);
    ParseStep([], d);
    assert [] + Parse(d) == Parse(d) && d[CHUNK_HEADER_SIZE + 0..] == rest && [] + [] + Parse(rest) == Parse(rest);
  }

  /** No chunk: its header is cut, or more is announced than there is. */
  predicate CutShort(d: seq<Byte>) {
    |d| < 4 || d[2] * 256 + d[3] > |d| - 4
  }

  /** The parser ends in front of what is cut short. */
  lemma {:induction false} ParseEnds(fs: seq<Field>, part: seq<Byte>)
    requires (forall f | f in fs :: Sendable(f)) && CutShort(part)
    ensures Parse(EncodedAll(fs) + part) == ValuesOf(fs)
  {
    hide Encoded, Sendable, Parse, ValueOf, CutShort;
    if fs == [] {
      assert EncodedAll(fs) + part == part;
      NothingRead(part);
    } else {
      assert Sendable(fs[0]);
      SendableFits(fs[0]);
      ParseField(fs[0], EncodedAll(fs[1..]) + part);
      ParseEnds(fs[1..], part);
      assert EncodedAll(fs) + part == Encoded(fs[0]) + (EncodedAll(fs[1..]) + part);
    }
  }

  lemma SendableFits(f: Field)
    requires Sendable(f)
    ensures Fitting(f) && SizeOf(f) <= |BodyOf(f)|
  {
  }

  lemma NothingRead(d: seq<Byte>)
    requires CutShort(d)
    ensures Parse(d) == []
  {
  }

  /** The parser undoes the writer; whole chunks of other types change nothing. */
  lemma {:induction false} ParseUndoes(fs: seq<Field>)
    requires forall f | f in fs :: Sendable(f)
    ensures Parse(EncodedAll(fs)) == ValuesOf(fs)
  {
    assert EncodedAll(fs) + [] == EncodedAll(fs);
    ParseEnds(fs, []);
  }

  /** With the fields the parser does not know left out, the callbacks are the same. */
  function Known(fs: seq<Field>): seq<Field> {
    if fs == [] then [] else (if fs[0].Foreign? then [] else [fs[0]]) + Known(fs[1..])
  }

  lemma {:induction false} ForeignChangesNothing(fs: seq<Field>)
    requires forall f | f in fs :: Sendable(f)
    ensures Parse(EncodedAll(fs)) == Parse(EncodedAll(Known(fs)))
  {
    KnownValues(fs);
    ParseUndoes(fs);
    ParseUndoes(Known(fs));
  }

  lemma {:induction false} KnownValues(fs: seq<Field>)
    ensures ValuesOf(Known(fs)) == ValuesOf(fs)
    ensures forall f | f in Known(fs) :: f in fs
  {
    if fs != [] {
      KnownValues(fs[1..]);
      var rest := Known(fs[1..]);
      if fs[0].Foreign? {
        assert Known(fs) == rest;
      } else {
        assert Known(fs)[0] == fs[0] && Known(fs)[1..] == rest;
      }
    }
  }

  // Numbers of more than one byte

  /** A number as a little-endian host keeps it in memory. */
  function HostOrder(v: nat, size: nat): (bytes: seq<Byte>)
    ensures |bytes| == size
  {
    if size == 0 then [] else [v % 256] + HostOrder(v / 256, size - 1)
  }

  function NumberChunk(id: Byte, chunkType: Byte, bytes: seq<Byte>): seq<Byte> {
    ChunkHeader(id, chunkType, |bytes|) + bytes
  }

  /** The host's bytes are read in network order. */
  lemma NumberRead(id: Byte, chunkType: Byte, bytes: seq<Byte>)
    requires (chunkType == CHUNK_TYPE_SHORT && |bytes| == 2) || (chunkType == CHUNK_TYPE_INTEGER && |bytes| == 4)
    ensures Parse(NumberChunk(id, chunkType, bytes)) ==
            [if |bytes| == 2 then Value16(id, Wide(bytes[0], bytes[1])) else Value32(id, Wide4(bytes))]
  {
    hide Wide;
    var d := NumberChunk(id, chunkType, bytes);
    HeaderRead(id, chunkType, |bytes|, bytes);
    ParseStep([], d);
    assert d[CHUNK_HEADER_SIZE + |bytes|..] == [] && Parse([]) == [];
    assert [] + Parse(d) == Parse(d);
  }

  /** A short comes through if and only if its two bytes are equal. */
  lemma ShortTurnedRound(id: Byte, v: nat)
    requires v < 0x1_0000
    ensures Parse(NumberChunk(id, CHUNK_TYPE_SHORT, HostOrder(v, 2))) == [Value16(id, v)] <==> v % 256 == v / 256
  {
    hide Parse, NumberChunk;
    var b := HostOrder(v, 2);
    assert b == [v % 256] + HostOrder(v / 256, 1) && HostOrder(v / 256, 1) == [v / 256] + HostOrder(v / 256 / 256, 0);
    NumberRead(id, CHUNK_TYPE_SHORT, b);
    assert b[0] == v % 256 && b[1] == v / 256;
  }

  /** An integer comes through if and only if its bytes read the same from both ends. */
  lemma IntegerTurnedRound(id: Byte, v: nat)
    requires v < 0x1_0000_0000
    ensures var b := HostOrder(v, 4);
      Parse(NumberChunk(id, CHUNK_TYPE_INTEGER, b)) == [Value32(id, v)] <==> b[0] == b[3] && b[1] == b[2]
  {
    hide Parse, NumberChunk;
    var b := HostOrder(v, 4);
    FourBytes(v);
    NumberRead(id, CHUNK_TYPE_INTEGER, b);
    SameBackwards(b[0], b[1], b[2], b[3]);
  }

  lemma FourBytes(v: nat)
    requires v < 0x1_0000_0000
    ensures var b := HostOrder(v, 4); v == b[0] + (b[1] as int) * 0x100 + (b[2] as int) * 0x1_0000 + (b[3] as int) * 0x100_0000
  {
    var v1, v2, v3 := v / 256, v / 256 / 256, v / 256 / 256 / 256;
    assert HostOrder(v, 4) == [v % 256] + HostOrder(v1, 3) && HostOrder(v1, 3) == [v1 % 256] + HostOrder(v2, 2);
    assert HostOrder(v2, 2) == [v2 % 256] + HostOrder(v3, 1) && HostOrder(v3, 1) == [v3 % 256] + HostOrder(v3 / 256, 0);
  }

  lemma SameBackwards(a: Byte, b: Byte, c: Byte, d: Byte)
    ensures Wide4([a, b, c, d]) == a + (b as int) * 0x100 + (c as int) * 0x1_0000 + (d as int) * 0x100_0000 <==> a == d && b == c
  {
  }

  /** `cbChunkOut`. */
  class ChunkOut {
    const packet: AutoBuffer<Byte>

    ghost predicate Valid()
      reads packet
    {
      packet.Valid()
    }

    constructor ()
      ensures Valid() && packet.Contents() == [] && fresh(packet) && fresh(packet.buffer)
    {
      packet := new AutoBuffer<Byte>();
    }

    /** The header part of all the append operations. */
    method AppendHeader(id: Byte, chunkType: Byte, size: Word)
      requires Valid()
      modifies packet, packet.buffer
      ensures Valid() && packet.Contents() == old(packet.Contents()) + ChunkHeader(id, chunkType, size)
      ensures packet.buffer == old(packet.buffer) || fresh(packet.buffer)
    {
      hide Split;
      ghost var was := packet.Contents();
      packet.Append([id]);
      packet.Append([chunkType]);
      packet.Append(Split(size));
      HeaderJoined(was, id, chunkType, size);
    }

    /** `AppendChunkString`: the size is cut to 16 bits, the bytes are not. */
    method AppendChunkString(id: Byte, value: seq<Byte>)
      requires Valid()
      modifies packet, packet.buffer
      ensures Valid() && packet.Contents() == old(packet.Contents()) + Encoded(Str(id, value))
      ensures packet.buffer == old(packet.buffer) || fresh(packet.buffer)
    {
      hide ChunkHeader, Encoded;
      ghost var was := packet.Contents();
      AppendHeader(id, CHUNK_TYPE_STRING, |value| % 0x1_0000);
      packet.Append(value);
      TextJoined(was, id, value);
    }

    /** `AppendChunkT`: the bytes of a number as they are in memory. */
    method AppendChunkT(id: Byte, chunkType: Byte, bytes: seq<Byte>)
      requires Valid() && |bytes| < 0x1_0000
      modifies packet, packet.buffer
      ensures Valid() && packet.Contents() == old(packet.Contents()) + NumberChunk(id, chunkType, bytes)
      ensures packet.buffer == old(packet.buffer) || fresh(packet.buffer)
    {
      hide ChunkHeader;
      ghost var was := packet.Contents();
      AppendHeader(id, chunkType, |bytes|);
      packet.Append(bytes);
      assert (was + ChunkHeader(id, chunkType, |bytes|)) + bytes == was + NumberChunk(id, chunkType, bytes);
    }

    method AppendChunkByte(id: Byte, number: Byte)
      requires Valid()
      modifies packet, packet.buffer
      ensures Valid() && packet.Contents() == old(packet.Contents()) + Encoded(Num(id, number))
      ensures packet.buffer == old(packet.buffer) || fresh(packet.buffer)
    {
      AppendChunkT(id, CHUNK_TYPE_BYTE, [number]);
    }

    method AppendChunkShort(id: Byte, number: nat)
      requires Valid() && number < 0x1_0000
      modifies packet, packet.buffer
      ensures Valid() && packet.Contents() == old(packet.Contents()) + NumberChunk(id, CHUNK_TYPE_SHORT, HostOrder(number, 2))
      ensures packet.buffer == old(packet.buffer) || fresh(packet.buffer)
    {
      AppendChunkT(id, CHUNK_TYPE_SHORT, HostOrder(number, 2));
    }

    method AppendChunkInteger(id: Byte, number: nat)
      requires Valid() && number < 0x1_0000_0000
      modifies packet, packet.buffer
      ensures Valid() && packet.Contents() == old(packet.Contents()) + NumberChunk(id, CHUNK_TYPE_INTEGER, HostOrder(number, 4))
      ensures packet.buffer == old(packet.buffer) || fresh(packet.buffer)
    {
      AppendChunkT(id, CHUNK_TYPE_INTEGER, HostOrder(number, 4));
    }

    /** `GetSize`, a 16-bit number. */
    function GetSize(): Word
      reads packet
    {
      packet.readyPosition % 0x1_0000
    }
  }

  // Sending

  /** What goes out for a payload: its size, and as much of it, modulo 2^16. */
  function PacketOf(sign: Byte, packetType: Word, payload: seq<Byte>): seq<Byte> {
    [sign] + Split(|payload| % 0x1_0000) + Split(packetType) + payload[..|payload| % 0x1_0000]
  }

  /** The sending side of a connection. */
  class Sender {
    var sent: seq<Byte>
    var sendBytes: nat

    constructor ()
      ensures sent == [] && sendBytes == 0
    {
      sent, sendBytes := [], 0;
    }

    method SendData(data: seq<Byte>)
      modifies this
      ensures sent == old(sent) + data && sendBytes == old(sendBytes) + |data|
    {
      sendBytes := sendBytes + |data|;
      sent := sent + data;
    }

    /** `SendChunkInPacket`. */
    method SendChunkInPacket(sign: Byte, packetType: Word, chunk: ChunkOut)
      requires chunk.Valid()
      modifies this
      ensures sent == old(sent) + PacketOf(sign, packetType, chunk.packet.Contents())
      ensures sendBytes - |sent| == old(sendBytes - |sent|)
    {
      ghost var was := sent;
      var size := chunk.GetSize();
      SendData([sign]);
      SendData(Split(size));
      SendData(Split(packetType));
      SendData(chunk.packet.buffer[..size]);
      assert chunk.packet.buffer[..size] == chunk.packet.Contents()[..size];
      assert (((was + [sign]) + Split(size)) + Split(packetType)) + chunk.packet.Contents()[..size]
          == was + PacketOf(sign, packetType, chunk.packet.Contents());
    }
  }

  // From end to end

  datatype Message = Message(packetType: Word, fields: seq<Field>)

  predicate MessageOk(m: Message) {
    |EncodedAll(m.fields)| < 0x1_0000 && forall f | f in m.fields :: Sendable(f)
  }

  function Wire(sign: Byte, ms: seq<Message>): seq<Byte> {
    if ms == [] then [] else PacketOf(sign, ms[0].packetType, EncodedAll(ms[0].fields)) + Wire(sign, ms[1..])
  }

  /** The handler calls for the messages of registered types. */
  function Deliveries(known: map<nat, Handler>, ms: seq<Message>): seq<Call> {
    if ms == [] then []
    else
      (if ms[0].packetType in known then
         [Call(known[ms[0].packetType], ms[0].packetType, EncodedAll(ms[0].fields))]
       else []) + Deliveries(known, ms[1..])
  }

  /** A packet comes out of the stream as it went in, and leaves what follows. */
  lemma {:induction false} PacketComesThrough(sign: Byte, packetType: Word, payload: seq<Byte>, tail: seq<Byte>)
    ensures var d := PacketOf(sign, packetType, payload) + tail;
      && Complete(sign, d) && PacketType(d) == packetType && Behind(d) == tail
      && Front(d) == payload[..|payload| % 0x1_0000]
      && (Front(d) == payload <==> |payload| < 0x1_0000)
  {
    var d, size := PacketOf(sign, packetType, payload) + tail, |payload| % 0x1_0000;
    assert d[1] == Split(size)[0] && d[2] == Split(size)[1];
    assert d[3] == Split(packetType)[0] && d[4] == Split(packetType)[1];
    assert d[HEADER_SIZE..] == payload[..size] + tail;
    assert Front(d) == d[HEADER_SIZE..][..size] && Behind(d) == d[HEADER_SIZE..][size..];
    if |payload| < 0x1_0000 { assert payload[..size] == payload; }
  }

  /**
   * Messages delivered in any segmentation lead to the handler calls of the
   * registered types, in order, with the payloads as written; nothing is left.
   */
  lemma {:induction false} EndToEnd(sign: Byte, known: map<nat, Handler>, ms: seq<Message>, segments: seq<seq<Byte>>)
    requires forall m | m in ms :: MessageOk(m)
    requires Concat(segments) == Wire(sign, ms)
    ensures Fed(sign, known, [], segments) == Outcome(Deliveries(known, ms), [])
  {
    SegmentationIndependent(sign, known, [], segments);
    assert [] + Concat(segments) == Wire(sign, ms);
    StreamOfWire(sign, known, ms);
  }

  lemma {:induction false} StreamOfWire(sign: Byte, known: map<nat, Handler>, ms: seq<Message>)
    requires forall m | m in ms :: MessageOk(m)
    ensures Stream(sign, known, Wire(sign, ms)) == Outcome(Deliveries(known, ms), [])
  {
    if ms != [] {
      assert MessageOk(ms[0]);
      PacketComesThrough(sign, ms[0].packetType, EncodedAll(ms[0].fields), Wire(sign, ms[1..]));
      StreamOfWire(sign, known, ms[1..]);
    }
  }

  /** What a handler that parses its payload then sees is what was appended. */
  lemma {:induction false} DeliveredValues(known: map<nat, Handler>, ms: seq<Message>)
    requires forall m | m in ms :: MessageOk(m) && m.packetType in known
    ensures |Deliveries(known, ms)| == |ms|
    ensures forall i | 0 <= i < |ms| ::
      Deliveries(known, ms)[i].packetType == ms[i].packetType
      && Parse(Deliveries(known, ms)[i].payload) == ValuesOf(ms[i].fields)
  {
    if ms != [] {
      assert MessageOk(ms[0]) && ms[0].packetType in known;
      ParseUndoes(ms[0].fields);
      DeliveredValues(known, ms[1..]);
    }
  }
}
