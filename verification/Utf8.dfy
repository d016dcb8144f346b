/** UTF-8 with sequences of up to six bytes, for a four-byte `wchar_t`. */
module Utf8 {
  type Byte = n: nat | n < 256

  // A signed 32-bit `wchar_t`.
  type Wide = n: int | -0x8000_0000 <= n < 0x8000_0000

  const QUESTION: Wide := 0x3F

  /** `w >> 6 * k`, the sign kept. */
  function Shifted(w: int, k: nat): int {
    if k == 0 then w else Shifted(w, k - 1) / 64
  }

  /** How many bytes follow the lead byte; negative ones are huge once they are unsigned. */
  function Following(w: Wide): nat {
    if 0 <= w < 0x80 then 0
    else if 0 <= w < 0x800 then 1
    else if 0 <= w < 0x1_0000 then 2
    else if 0 <= w < 0x20_0000 then 3
    else if 0 <= w < 0x400_0000 then 4
    else 5
  }

  /** The bits set in a lead byte in front of its payload, and the room for the payload. */
  function Marker(k: nat): Byte
    requires 1 <= k <= 5
  {
    if k == 1 then 0xC0 else if k == 2 then 0xE0 else if k == 3 then 0xF0 else if k == 4 then 0xF8 else 0xFC
  }

  function Room(k: nat): nat
    requires 1 <= k <= 5
  {
    if k == 1 then 64 else if k == 2 then 32 else if k == 3 then 16 else if k == 4 then 8 else 4
  }

  /** The marker with six bits or-ed in. */
  function Lead(w: Wide, k: nat): Byte
    requires 1 <= k <= 5
  {
    Marker(k) + Shifted(w, k) % 64 % Room(k)
  }

  /** The last `k` bytes of a sequence. */
  function Trail(w: int, k: nat): seq<Byte> {
    if k == 0 then [] else [0x80 + Shifted(w, k - 1) % 64] + Trail(w, k - 1)
  }

  function EncodeOne(w: Wide): seq<Byte> {
    if Following(w) == 0 then [w] else [Lead(w, Following(w))] + Trail(w, Following(w))
  }

  function Encode(s: seq<Wide>): seq<Byte> {
    if s == [] then [] else EncodeOne(s[0]) + Encode(s[1..])
  }

  /** `utf8_encode`. */
  method EncodeText(s: seq<Wide>) returns (out: seq<Byte>)
    ensures out == Encode(s)
  {
    hide EncodeOne;
    out := [];
    var i := 0;
    assert s[0..] == s;
    while i < |s|
      invariant i <= |s| && out + Encode(s[i..]) == Encode(s)
    {
      assert s[i..][0] == s[i] && s[i..][1..] == s[i + 1..];
      var bytes := EncodeWide(s[i]);
      assert out + (bytes + Encode(s[i + 1..])) == (out + bytes) + Encode(s[i + 1..]);
      out := out + bytes;
      i := i + 1;
    }
  }

  /** One element; the shift counts in steps of six bits. */
  method EncodeWide(wc: Wide) returns (out: seq<Byte>)
    ensures out == EncodeOne(wc)
  {
    if 0 <= wc < 0x80 {
      return [wc];
    }
    hide Shifted, Lead;
    var shift: int := Following(wc);
    ghost var k := shift;
    out := [Lead(wc, shift)];
    shift := shift - 1;
    while shift >= 0
      invariant -1 <= shift < k
      invariant out + Trail(wc, shift + 1) == EncodeOne(wc)
    {
      assert out + ([0x80 + Shifted(wc, shift) % 64] + Trail(wc, shift)) == (out + [0x80 + Shifted(wc, shift) % 64]) + Trail(wc, shift);
      out := out + [0x80 + Shifted(wc, shift) % 64];
      shift := shift - 1;
    }
    assert out + [] == out;
  }

  // Decoding

  /** A lead byte: how many bytes follow, and its payload; 0 follow an invalid one. */
  function LeadSize(b: Byte): nat {
    if b / 32 == 6 then 1
    else if b / 16 == 14 then 2
    else if b / 8 == 30 then 3
    else if b / 4 == 62 then 4
    else if b / 2 == 126 then 5
    else 0
  }

  function Payload(b: Byte): nat {
    if LeadSize(b) == 1 then b % 32
    else if LeadSize(b) == 2 then b % 16
    else if LeadSize(b) == 3 then b % 8
    else if LeadSize(b) == 4 then b % 4
    else b % 2
  }

  /** An empty payload becomes all ones, here a negative number; it stays negative. */
  function Opening(b: Byte): int {
    if Payload(b) == 0 then -1 else Payload(b)
  }

  predicate Continues(b: Byte) {
    b / 64 == 2
  }

  /** A code point whose bit 31 is set is out of range. */
  function Closing(wc: int): Wide {
    if 0 <= wc < 0x8000_0000 then wc else QUESTION
  }

  /** As much of an unfinished code point as a `wchar_t` holds. */
  function Cut(wc: int): Wide {
    (wc + 0x8000_0000) % 0x1_0000_0000 - 0x8000_0000
  }

  /** `utf8_decode` at the start of a code point. */
  function Decode(d: seq<Byte>): seq<Wide>
    decreases |d|, 0
  {
    if d == [] then []
    else if d[0] < 0x80 then [d[0]] + Decode(d[1..])
    else if LeadSize(d[0]) == 0 then [QUESTION] + Decode(d[1..])
    else DecodeRest(d[1..], LeadSize(d[0]), Opening(d[0]))
  }

  /** The same when `count` bytes are still to follow; a byte that does not belong starts over. */
  function DecodeRest(d: seq<Byte>, count: nat, wc: int): seq<Wide>
    requires count > 0
    decreases |d|, 1
  {
    if d == [] then []
    else if !Continues(d[0]) then [Cut(wc)] + Decode(d)
    else if count == 1 then [Closing(wc * 64 + d[0] % 64)] + Decode(d[1..])
    else DecodeRest(d[1..], count - 1, wc * 64 + d[0] % 64)
  }

  /** `utf8_decode`. */
  method DecodeText(d: seq<Byte>) returns (out: seq<Wide>)
    ensures out == Decode(d)
  {
    hide LeadSize, Opening;
    out := [];
    var i := 0;
    assert d[0..] == d;
    while i < |d|
      invariant i <= |d| && out + Decode(d[i..]) == Decode(d)
    {
      assert d[i..][0] == d[i] && d[i..][1..] == d[i + 1..];
      if d[i] < 0x80 {
        assert out + ([d[i]] + Decode(d[i + 1..])) == (out + [d[i]]) + Decode(d[i + 1..]);
        out := out + [d[i]];
        i := i + 1;
      } else if LeadSize(d[i]) == 0 {
        assert out + ([QUESTION] + Decode(d[i + 1..])) == (out + [QUESTION]) + Decode(d[i + 1..]);
        out := out + [QUESTION];
        i := i + 1;
      } else {
        var more, next := DecodeFollowing(d, i + 1, LeadSize(d[i]), Opening(d[i]));
        assert out + (more + Decode(d[next..])) == (out + more) + Decode(d[next..]);
        out := out + more;
        i := next;
      }
    }
    assert out + [] == out;
  }

  /** The bytes that follow a lead byte; the loop ends in front of a byte that has to be looked at again. */
  method DecodeFollowing(d: seq<Byte>, start: nat, size: nat, opening: int) returns (out: seq<Wide>, i: nat)
    requires start <= |d| && size > 0
    ensures start <= i <= |d| && out + Decode(d[i..]) == DecodeRest(d[start..], size, opening)
  {
    var count, wc := size, opening;
    i := start;
    while count > 0 && i < |d| && Continues(d[i])
      invariant start <= i <= |d|
      invariant count > 0 ==> DecodeRest(d[i..], count, wc) == DecodeRest(d[start..], size, opening)
      invariant count == 0 ==> [Closing(wc)] + Decode(d[i..]) == DecodeRest(d[start..], size, opening)
      decreases |d| - i
    {
      assert d[i..][0] == d[i] && d[i..][1..] == d[i + 1..];
      wc := wc * 64 + d[i] % 64;
      count := count - 1;
      i := i + 1;
    }
    if count == 0 {
      out := [Closing(wc)];
    } else if i == |d| {
      assert d[i..] == [];
      out := [];
    } else {
      out := [Cut(wc)];
    }
  }

  /** Decoding never makes more elements than there are bytes. */
  lemma {:induction false} DecodeBounded(d: seq<Byte>)
    ensures |Decode(d)| <= |d|
    decreases |d|, 0
  {
    if d != [] {
      if d[0] < 0x80 || LeadSize(d[0]) == 0 { DecodeBounded(d[1..]); }
      else { RestBounded(d[1..], LeadSize(d[0]), Opening(d[0])); }
    }
  }

  lemma {:induction false} RestBounded(d: seq<Byte>, count: nat, wc: int)
    requires count > 0
    ensures |DecodeRest(d, count, wc)| <= |d| + if d == [] then 0 else 1
    decreases |d|, 1
  {
    if d != [] {
      if !Continues(d[0]) { DecodeBounded(d); }
      else if count == 1 { DecodeBounded(d[1..]); }
      else { RestBounded(d[1..], count - 1, wc * 64 + d[0] % 64); }
    }
  }

  // What the bytes are

  /** The number whose bits are the payload of a lead byte and of the bytes behind it. */
  function Number(payload: int, more: seq<Byte>): int {
    if more == [] then payload else Number(payload, more[..|more| - 1]) * 64 + (more[|more| - 1] as int - 0x80)
  }

  /** Bytes that continue a sequence. */
  predicate AllContinue(more: seq<Byte>) {
    forall b | b in more :: 0x80 <= b < 0xC0
  }

  lemma {:induction false} TrailNumber(w: int, k: nat)
    ensures |Trail(w, k)| == k && AllContinue(Trail(w, k)) && Number(Shifted(w, k), Trail(w, k)) == w
    decreases k
  {
    if k > 0 {
      TrailNumber(w / 64, k - 1);
      TrailFront(w, k);
    }
  }

  /** All but the last byte are those of the number without its last six bits. */
  lemma {:induction false} TrailFront(w: int, k: nat)
    requires k > 0
    ensures Trail(w, k) == Trail(w / 64, k - 1) + [0x80 + w % 64] && Shifted(w, k) == Shifted(w / 64, k - 1)
    decreases k
  {
    if k > 1 { TrailFront(w, k - 1); }
  }

  /**
   * A code point is written in the fewest bytes that have room for it; the
   * first byte tells how many, and the payload bits are the code point. A
   * negative one is written as the 32 bits it has in memory.
   */
  lemma {:induction false} EncodedShortest(w: Wide)
    ensures var e := EncodeOne(w);
      && |e| == (if w < 0 then 6 else if w < 0x80 then 1 else if w < 0x800 then 2 else if w < 0x1_0000 then 3
                 else if w < 0x20_0000 then 4 else if w < 0x400_0000 then 5 else 6)
      && AllContinue(e[1..])
      && (|e| == 1 ==> e[0] == w)
      && (|e| == 2 ==> 0xC0 <= e[0] < 0xE0 && Number(e[0] - 0xC0, e[1..]) == w)
      && (|e| == 3 ==> 0xE0 <= e[0] < 0xF0 && Number(e[0] - 0xE0, e[1..]) == w)
      && (|e| == 4 ==> 0xF0 <= e[0] < 0xF8 && Number(e[0] - 0xF0, e[1..]) == w)
      && (|e| == 5 ==> 0xF8 <= e[0] < 0xFC && Number(e[0] - 0xF8, e[1..]) == w)
      && (|e| == 6 ==> 0xFC <= e[0] && Number(e[0] - 0xFC, e[1..]) == if w < 0 then w + 0x1_0000_0000 else w)
  {
    hide Number, Trail, Shifted, AllContinue;
    var k, e := Following(w), EncodeOne(w);
    if k == 0 {
      assert e[1..] == [];
      NothingContinues();
    } else {
      assert e[1..] == Trail(w, k);
      TrailNumber(w, k);
      ShiftedForms(w);
      if w < 0 { NumberPlus(Shifted(w, 5), 4, e[1..]); }
    }
  }

  lemma NothingContinues()
    ensures AllContinue([])
  {
  }

  lemma {:induction false} NumberPlus(payload: int, d: int, more: seq<Byte>)
    requires |more| == 5
    ensures Number(payload + d, more) == Number(payload, more) + d * 0x4000_0000
  {
    var m4, m3, m2, m1 := more[..4], more[..3], more[..2], more[..1];
    assert m4[..3] == m3 && m3[..2] == m2 && m2[..1] == m1 && m1[..0] == [];
    assert Number(payload, m1) == payload * 64 + (more[0] as int - 0x80);
    assert Number(payload + d, m1) == (payload + d) * 64 + (more[0] as int - 0x80);
    assert Number(payload, m2) == Number(payload, m1) * 64 + (more[1] as int - 0x80);
    assert Number(payload + d, m2) == Number(payload + d, m1) * 64 + (more[1] as int - 0x80);
    assert Number(payload, m3) == Number(payload, m2) * 64 + (more[2] as int - 0x80);
    assert Number(payload + d, m3) == Number(payload + d, m2) * 64 + (more[2] as int - 0x80);
    assert Number(payload, m4) == Number(payload, m3) * 64 + (more[3] as int - 0x80);
    assert Number(payload + d, m4) == Number(payload + d, m3) * 64 + (more[3] as int - 0x80);
  }

  // Decoding whatever bytes

  /** What a lead byte says: how many bytes follow, and its payload. */
  predicate Leads(b: Byte, more: nat, payload: nat) {
    || (0xC0 <= b < 0xE0 && more == 1 && b == 0xC0 + payload)
    || (0xE0 <= b < 0xF0 && more == 2 && b == 0xE0 + payload)
    || (0xF0 <= b < 0xF8 && more == 3 && b == 0xF0 + payload)
    || (0xF8 <= b < 0xFC && more == 4 && b == 0xF8 + payload)
    || (0xFC <= b < 0xFE && more == 5 && b == 0xFC + payload)
  }

  lemma LeadsRead(b: Byte, more: nat, payload: nat)
    requires Leads(b, more, payload)
    ensures LeadSize(b) == more && 1 <= more <= 5 && payload < 32
    ensures Opening(b) == if payload == 0 then -1 else payload
  {
  }

  lemma NumberFront(payload: int, more: seq<Byte>)
    requires more != []
    ensures Number(payload, more) == Number(payload * 64 + (more[0] as int - 0x80), more[1..])
    decreases |more|
  {
    if |more| == 1 {
      assert more[..0] == [] && more[1..] == [];
    } else {
      var front := more[..|more| - 1];
      assert more[1..][..|more[1..]| - 1] == front[1..];
      NumberFront(payload, front);
    }
  }

  /** Following bytes, all of them. */
  lemma {:induction false} RestWhole(more: seq<Byte>, tail: seq<Byte>, wc: int)
    requires more != [] && AllContinue(more)
    ensures DecodeRest(more + tail, |more|, wc) == [Closing(Number(wc, more))] + Decode(tail)
    decreases |more|
  {
    var d := more + tail;
    assert d[0] == more[0] && d[1..] == more[1..] + tail && more[0] in more;
    ContinuingByte(more[0]);
    NumberFront(wc, more);
    if |more| == 1 {
      assert more[1..] == [] && [] + tail == tail;
    } else {
      forall b | b in more[1..] ensures 0x80 <= b < 0xC0 { assert b in more; }
      RestWhole(more[1..], tail, wc * 64 + more[0] % 64);
    }
  }

  lemma ContinuingByte(b: Byte)
    ensures Continues(b) <==> 0x80 <= b < 0xC0
    ensures Continues(b) ==> b % 64 == b - 0x80
  {
  }

  /** Some of them, and then the end or a byte that does not belong. */
  lemma {:induction false} RestBroken(more: seq<Byte>, tail: seq<Byte>, count: nat, wc: int)
    requires |more| < count && AllContinue(more) && (tail != [] ==> !(0x80 <= tail[0] < 0xC0))
    ensures DecodeRest(more + tail, count, wc) == if tail == [] then [] else [Cut(Number(wc, more))] + Decode(tail)
    decreases |more|
  {
    if more == [] {
      assert more + tail == tail;
      if tail != [] { ContinuingByte(tail[0]); }
    } else {
      var d := more + tail;
      assert d[0] == more[0] && d[1..] == more[1..] + tail && more[0] in more;
      ContinuingByte(more[0]);
      NumberFront(wc, more);
      forall b | b in more[1..] ensures 0x80 <= b < 0xC0 { assert b in more; }
      RestBroken(more[1..], tail, count - 1, wc * 64 + more[0] % 64);
    }
  }

  /** How large the number is. */
  lemma {:induction false} NumberRange(wc: int, more: seq<Byte>)
    requires AllContinue(more)
    ensures wc >= 0 ==> 0 <= Number(wc, more) < (wc + 1) * Sixties(|more|)
    ensures wc == -1 ==> 0 <= Number(wc, more) + Sixties(|more|) && Number(wc, more) < 0
    decreases |more|
  {
    if more != [] {
      var front, last := more[..|more| - 1], more[|more| - 1];
      assert last in more;
      forall b | b in front ensures 0x80 <= b < 0xC0 { assert b in more; }
      NumberRange(wc, front);
      if wc >= 0 {
        assert (wc + 1) * Sixties(|more|) == (wc + 1) * Sixties(|front|) * 64;
      }
    }
  }

  function Sixties(n: nat): (s: nat)
    ensures s > 0
  {
    if n == 0 then 1 else Sixties(n - 1) * 64
  }

  /** A byte below 0x80 stands for itself; a byte that can begin nothing is a question mark. */
  lemma SingleByte(b: Byte, tail: seq<Byte>)
    ensures b < 0x80 ==> Decode([b] + tail) == [b as Wide] + Decode(tail)
    ensures 0x80 <= b < 0xC0 || b >= 0xFE ==> Decode([b] + tail) == [QUESTION] + Decode(tail)
  {
    assert ([b] + tail)[1..] == tail;
  }

  /** A whole sequence is the number of its payload bits, or a question mark if its lead byte carries none. */
  lemma {:induction false} WholeSequence(b: Byte, more: seq<Byte>, payload: nat, tail: seq<Byte>)
    requires Leads(b, |more|, payload) && AllContinue(more)
    ensures 0 <= Number(payload, more) < 0x8000_0000
    ensures Decode([b] + more + tail) == [if payload == 0 then QUESTION else Number(payload, more)] + Decode(tail)
  {
    hide Decode, DecodeRest, Number, LeadSize, Opening;
    LeadsRead(b, |more|, payload);
    SequenceStep(b, more + tail);
    assert [b] + more + tail == [b] + (more + tail);
    RestWhole(more, tail, Opening(b));
    NumberRange(payload, more);
    NumberRange(-1, more);
    SixtiesForms();
  }

  lemma SequenceStep(b: Byte, d: seq<Byte>)
    requires LeadSize(b) > 0 && b >= 0x80
    ensures Decode([b] + d) == DecodeRest(d, LeadSize(b), Opening(b))
  {
    assert ([b] + d)[1..] == d;
  }

  lemma SixtiesForms()
    ensures Sixties(0) == 1 && Sixties(1) == 64 && Sixties(2) == 0x1000 && Sixties(3) == 0x4_0000
    ensures Sixties(4) == 0x100_0000 && Sixties(5) == 0x4000_0000
  {
    assert Sixties(1) == Sixties(0) * 64;
    assert Sixties(2) == Sixties(1) * 64;
    assert Sixties(3) == Sixties(2) * 64;
    assert Sixties(4) == Sixties(3) * 64;
    assert Sixties(5) == Sixties(4) * 64;
  }

  /**
   * A sequence that breaks off comes out as the bits there are, an empty lead
   * payload counted as all ones, and the byte that broke it off is read anew;
   * at the end of the text nothing comes out.
   */
  lemma {:induction false} BrokenSequence(b: Byte, count: nat, more: seq<Byte>, payload: nat, tail: seq<Byte>)
    requires Leads(b, count, payload) && |more| < count && AllContinue(more)
    requires tail != [] ==> !(0x80 <= tail[0] < 0xC0)
    ensures var n := Number(if payload == 0 then -1 else payload, more);
      && -0x8000_0000 <= n < 0x8000_0000
      && Decode([b] + more + tail) == if tail == [] then [] else [n] + Decode(tail)
  {
    hide Decode, DecodeRest, Number, LeadSize, Opening;
    LeadsRead(b, count, payload);
    SequenceStep(b, more + tail);
    assert [b] + more + tail == [b] + (more + tail);
    RestBroken(more, tail, count, Opening(b));
    NumberRange(Opening(b), more);
    SixtiesForms();
  }

  // Decoding what was encoded

  /** The elements whose lead byte carries a payload bit. */
  predicate Kept(w: Wide) {
    0 <= w < 0x800 || 0x1000 <= w < 0x1_0000 || 0x4_0000 <= w < 0x20_0000 || 0x100_0000 <= w < 0x400_0000 || 0x4000_0000 <= w
  }

  /** What comes back for one element: itself, a question mark, or six of them for a negative one. */
  function Back(w: Wide): seq<Wide> {
    if Kept(w) then [w] else if w >= 0 then [QUESTION] else [QUESTION, QUESTION, QUESTION, QUESTION, QUESTION, QUESTION]
  }

  function BackAll(s: seq<Wide>): seq<Wide> {
    if s == [] then [] else Back(s[0]) + BackAll(s[1..])
  }

  /** The bytes that follow bring the code point back. */
  lemma {:induction false} TrailDecodes(w: int, k: nat, tail: seq<Byte>)
    requires k > 0
    ensures DecodeRest(Trail(w, k) + tail, k, Shifted(w, k)) == [Closing(w)] + Decode(tail)
  {
    var d, c := Trail(w, k) + tail, 0x80 + Shifted(w, k - 1) % 64;
    assert d[0] == c && d[1..] == Trail(w, k - 1) + tail;
    assert Continues(c) && c % 64 == Shifted(w, k - 1) % 64;
    assert Shifted(w, k) * 64 + c % 64 == Shifted(w, k - 1);
    if k > 1 { TrailDecodes(w, k - 1, tail); } else { assert Trail(w, 0) + tail == tail; }
  }

  /** Behind an empty payload everything ends in a question mark. */
  lemma {:induction false} TrailLost(w: int, k: nat, tail: seq<Byte>, wc: int)
    requires k > 0 && wc < 0
    ensures DecodeRest(Trail(w, k) + tail, k, wc) == [QUESTION] + Decode(tail)
  {
    var d, c := Trail(w, k) + tail, 0x80 + Shifted(w, k - 1) % 64;
    assert d[0] == c && d[1..] == Trail(w, k - 1) + tail;
    assert Continues(c);
    if k > 1 { TrailLost(w, k - 1, tail, wc * 64 + c % 64); } else { assert Trail(w, 0) + tail == tail; }
  }

  /** Bytes that follow nothing are question marks one by one. */
  lemma {:induction false} TrailAlone(w: int, k: nat, tail: seq<Byte>)
    ensures Decode(Trail(w, k) + tail) == seq(k, _ => QUESTION) + Decode(tail)
  {
    if k == 0 {
      assert Trail(w, 0) + tail == tail && seq(0, _ => QUESTION) + Decode(tail) == Decode(tail);
    } else {
      var d, c := Trail(w, k) + tail, 0x80 + Shifted(w, k - 1) % 64;
      assert d[0] == c && d[1..] == Trail(w, k - 1) + tail;
      hide Trail, Shifted;
      NoLead(c);
      TrailAlone(w, k - 1, tail);
      assert Decode(d) == [QUESTION] + Decode(d[1..]);
      assert [QUESTION] + (seq(k - 1, _ => QUESTION) + Decode(tail)) == seq(k, _ => QUESTION) + Decode(tail);
    }
  }

  lemma NoLead(c: Byte)
    requires 0x80 <= c < 0xC0
    ensures LeadSize(c) == 0
  {
  }

  lemma ShiftedForms(w: int)
    ensures Shifted(w, 1) == w / 64 && Shifted(w, 2) == w / 0x1000 && Shifted(w, 3) == w / 0x4_0000
    ensures Shifted(w, 4) == w / 0x100_0000 && Shifted(w, 5) == w / 0x4000_0000
  {
    assert Shifted(w, 0) == w;
    assert Shifted(w, 1) == Shifted(w, 0) / 64;
    assert Shifted(w, 2) == Shifted(w, 1) / 64;
    assert Shifted(w, 3) == Shifted(w, 2) / 64;
    assert Shifted(w, 4) == Shifted(w, 3) / 64;
    assert Shifted(w, 5) == Shifted(w, 4) / 64;
  }

  /** The payload of the lead byte is what the shift leaves of the code point. */
  lemma LeadPayload(w: Wide, k: nat)
    requires 0x80 <= w && k == Following(w)
    ensures LeadSize(Lead(w, k)) == k && Payload(Lead(w, k)) == Shifted(w, k) && Lead(w, k) >= 0x80
    ensures Kept(w) <==> Shifted(w, k) > 0
  {
    hide Shifted, LeadSize, Payload, Marker;
    ShiftedForms(w);
    LeadRead(k, Shifted(w, k));
  }

  /** A payload that leaves the bit behind the marker free. */
  lemma LeadRead(k: nat, x: nat)
    requires 1 <= k <= 5 && x < Room(k) / 2
    ensures Marker(k) + x % 64 % Room(k) == Marker(k) + x < 256
    ensures LeadSize(Marker(k) + x) == k && Payload(Marker(k) + x) == x && Marker(k) >= 0x80
  {
    assert x < Room(k) <= 64 && x % 64 == x && x % Room(k) == x;
    if k == 1 {
      assert (0xC0 + x) / 32 == 6;
    } else if k == 2 {
      assert (0xE0 + x) / 16 == 14;
    } else if k == 3 {
      assert (0xF0 + x) / 8 == 30;
    } else if k == 4 {
      assert (0xF8 + x) / 4 == 62;
    }
  }

  lemma LeadOfNegative(w: Wide)
    requires w < 0
    ensures Following(w) == 5 && LeadSize(Lead(w, 5)) == 0 && Lead(w, 5) >= 0x80
  {
    hide Shifted;
    ShiftedForms(w);
    assert -2 <= Shifted(w, 5) <= -1;
  }

  lemma {:induction false} OneComesBack(w: Wide, tail: seq<Byte>)
    ensures Decode(EncodeOne(w) + tail) == Back(w) + Decode(tail)
  {
    hide Lead, LeadSize, Payload, Trail, Kept;
    var k := Following(w);
    var d := EncodeOne(w) + tail;
    if k == 0 {
      assert d[1..] == tail;
      KeptPlain(w);
    } else {
      assert d[0] == Lead(w, k) && d[1..] == Trail(w, k) + tail;
      if w < 0 { NegativeComesBack(w, tail); } else { SequenceComesBack(w, k, tail); }
    }
  }

  lemma KeptPlain(w: Wide)
    requires Following(w) == 0
    ensures Kept(w) && 0 <= w < 0x80
  {
  }

  lemma {:induction false} NegativeComesBack(w: Wide, tail: seq<Byte>)
    requires w < 0
    ensures Decode([Lead(w, 5)] + (Trail(w, 5) + tail)) == Back(w) + Decode(tail)
    ensures EncodeOne(w) + tail == [Lead(w, 5)] + (Trail(w, 5) + tail)
  {
    hide Lead, LeadSize, Trail;
    LeadOfNegative(w);
    TrailAlone(w, 5, tail);
    assert ([Lead(w, 5)] + (Trail(w, 5) + tail))[1..] == Trail(w, 5) + tail;
    assert [QUESTION] + (seq(5, _ => QUESTION) + Decode(tail)) == Back(w) + Decode(tail);
  }

  lemma {:induction false} SequenceComesBack(w: Wide, k: nat, tail: seq<Byte>)
    requires 0x80 <= w && k == Following(w)
    ensures Decode([Lead(w, k)] + (Trail(w, k) + tail)) == Back(w) + Decode(tail)
    ensures EncodeOne(w) + tail == [Lead(w, k)] + (Trail(w, k) + tail)
  {
    hide Lead, LeadSize, Trail, Kept, Payload, Shifted;
    var d := [Lead(w, k)] + (Trail(w, k) + tail);
    assert d[1..] == Trail(w, k) + tail;
    LeadPayload(w, k);
    if Kept(w) { TrailDecodes(w, k, tail); } else { NonNegative(w, k); TrailLost(w, k, tail, -1); }
  }

  lemma NonNegative(w: Wide, k: nat)
    requires 0 <= w
    ensures Shifted(w, k) >= 0
  {
    if k > 0 { NonNegative(w, k - 1); }
  }

  /** Decoding an encoded text gives it back with exactly the elements that are not kept replaced. */
  lemma {:induction false} DecodeUndoesEncode(s: seq<Wide>)
    ensures Decode(Encode(s)) == BackAll(s)
  {
    if s != [] {
      OneComesBack(s[0], Encode(s[1..]));
      DecodeUndoesEncode(s[1..]);
    }
  }

  /** The text itself comes back if and only if all of its elements are kept. */
  lemma {:induction false} RoundTrip(s: seq<Wide>)
    ensures Decode(Encode(s)) == s <==> forall w | w in s :: Kept(w)
  {
    DecodeUndoesEncode(s);
    BackIsSame(s);
  }

  lemma {:induction false} BackIsSame(s: seq<Wide>)
    ensures |BackAll(s)| >= |s|
    ensures BackAll(s) == s <==> forall w | w in s :: Kept(w)
  {
    if s != [] {
      BackIsSame(s[1..]);
      assert s == [s[0]] + s[1..];
      if |Back(s[0])| == 1 {
        assert BackAll(s)[0] == Back(s[0])[0] && BackAll(s)[1..] == BackAll(s[1..]);
      } else {
        assert |BackAll(s)| > |s|;
      }
    }
  }
}
