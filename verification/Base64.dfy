/** Base64 and its URL-safe form, sections 4 and 5 of RFC 4648. */
module Base64 {
  type Byte = n: nat | n < 256

  type Digit = n: nat | n < 64

  const PAD := '='
  // The loops count in an `int` of 32 bits.
  const MAX_INT := 0x7FFF_FFFF

  function EncodingSize(n: nat): nat {
    4 * ((n + 2) / 3)
  }

  function DecodingSize(n: nat): nat {
    n / 4 * 3
  }

  /** `EMap::at`. */
  function EMap(d: Digit): char {
    if d < 26 then 'A' + d as char
    else if d < 52 then 'a' + (d - 26) as char
    else if d < 62 then '0' + (d - 52) as char
    else if d == 62 then '+' else '/'
  }

  /** `DMap::at`: -1 for what is no digit. */
  function DMap(c: char): int {
    if 'A' <= c <= 'Z' then (c - 'A') as int
    else if 'a' <= c <= 'z' then (c - 'a') as int + 26
    else if '0' <= c <= '9' then (c - '0') as int + 52
    else if c == '+' then 62 else if c == '/' then 63 else -1
  }

  /** Table 1 of RFC 4648. */
  const UPPER := "ABCDEFGHIJKLMNOPQRSTUVWXYZ"
  const LOWER := "abcdefghijklmnopqrstuvwxyz"
  const NUMERALS := "0123456789"
  const ALPHABET := UPPER + LOWER + NUMERALS + "+/"

  /** The maps are that table and its inverse. */
  lemma EMapExactly(d: Digit)
    ensures EMap(d) == ALPHABET[d]
  {
    assert |UPPER| == |LOWER| == 26 && |NUMERALS| == 10;
    if d < 26 { assert ALPHABET[d] == UPPER[d]; Letters(d); }
    else if d < 52 { assert ALPHABET[d] == LOWER[d - 26]; Letters(d - 26); }
    else if d < 62 { assert ALPHABET[d] == NUMERALS[d - 52]; Numerals(d - 52); }
  }

  lemma Letters(k: nat)
    requires k < 26
    ensures UPPER[k] == 'A' + k as char && LOWER[k] == 'a' + k as char
  {
  }

  lemma Numerals(k: nat)
    requires k < 10
    ensures NUMERALS[k] == '0' + k as char
  {
  }

  predicate InTable(c: char) {
    c in ALPHABET
  }

  lemma DMapExactly(c: char)
    ensures DMap(c) == -1 <==> !InTable(c)
    ensures forall d | 0 <= d < 64 && ALPHABET[d] == c :: DMap(c) == d
  {
    hide EMap, DMap;
    forall d: nat | d < 64 && ALPHABET[d] == c ensures DMap(c) == d {
      EMapExactly(d);
      MapsAgree(d);
    }
    MapsAgreeBack(c);
    if DMap(c) != -1 {
      EMapExactly(DMap(c));
      assert ALPHABET[DMap(c)] in ALPHABET;
    }
  }

  /** What may be looked up in the decoding map: a `char` from 128 on is no index of it. */
  predicate Ascii(t: string) {
    forall c | c in t :: c < 128 as char
  }

  lemma MapsAgree(d: Digit)
    ensures DMap(EMap(d)) == d
  {
  }

  lemma MapsAgreeBack(c: char)
    ensures DMap(c) != -1 ==> 0 <= DMap(c) < 64 && EMap(DMap(c)) == c
  {
  }

  // Encoding

  /** The digits of up to three bytes, without padding. */
  function Group(s: seq<Byte>): seq<Digit>
    requires |s| <= 3
  {
    if |s| == 0 then []
    else if |s| == 1 then [s[0] / 4, s[0] % 4 * 16]
    else if |s| == 2 then [s[0] / 4, s[0] % 4 * 16 + s[1] / 16, s[1] % 16 * 4]
    else [s[0] / 4, s[0] % 4 * 16 + s[1] / 16, s[1] % 16 * 4 + s[2] / 64, s[2] % 64]
  }

  function Digits(s: seq<Byte>): (ds: seq<Digit>)
    ensures |ds| == (4 * |s| + 2) / 3
  {
    if |s| <= 3 then Group(s) else Group(s[..3]) + Digits(s[3..])
  }

  function Text(ds: seq<Digit>): (t: string)
    ensures |t| == |ds| && forall i | 0 <= i < |ds| :: t[i] == EMap(ds[i])
  {
    seq(|ds|, i requires 0 <= i < |ds| => EMap(ds[i]))
  }

  function Padding(n: nat): string {
    if n % 3 == 0 then "" else if n % 3 == 2 then "=" else "=="
  }

  function Encode(s: seq<Byte>): string {
    Text(Digits(s)) + Padding(|s|)
  }

  lemma EncodedSize(s: seq<Byte>)
    ensures |Encode(s)| == EncodingSize(|s|)
  {
    hide Digits, Text;
    SizeWithPadding(|s|);
  }

  lemma SizeWithPadding(n: nat)
    ensures (4 * n + 2) / 3 + |Padding(n)| == EncodingSize(n)
  {
    var q, r := n / 3, n % 3;
    assert n == 3 * q + r;
    assert (n + 2) / 3 == q + if r == 0 then 0 else 1;
    assert (4 * n + 2) / 3 == 4 * q + (4 * r + 2) / 3;
  }

  lemma TextConcat(a: seq<Digit>, b: seq<Digit>)
    ensures Text(a + b) == Text(a) + Text(b)
  {
  }

  lemma {:induction false} EncodeStep(s: seq<Byte>)
    requires |s| >= 3
    ensures Encode(s) == Text(Group(s[..3])) + Encode(s[3..])
  {
    hide Group, Text;
    assert Padding(|s|) == Padding(|s| - 3) by { assert |s| % 3 == (|s| - 3) % 3; }
    var more := Digits(s[3..]);
    if |s| == 3 {
      assert s[..3] == s && more == [] by { NoDigits(s[3..]); }
    }
    assert Digits(s) == Group(s[..3]) + more;
    TextConcat(Group(s[..3]), more);
    assert Text(Group(s[..3])) + Text(more) + Padding(|s|) == Text(Group(s[..3])) + (Text(more) + Padding(|s|));
  }

  lemma NoDigits(s: seq<Byte>)
    requires s == []
    ensures Digits(s) == []
  {
  }

  /** Four characters put into the result. */
  method Put(buffer: array<char>, j: nat, c0: char, c1: char, c2: char, c3: char)
    requires j + 4 <= buffer.Length
    modifies buffer
    ensures buffer[..j + 4] == old(buffer[..j]) + [c0, c1, c2, c3]
  {
    buffer[j], buffer[j + 1], buffer[j + 2], buffer[j + 3] := c0, c1, c2, c3;
  }

  /** The last, incomplete group with its padding. */
  lemma EncodeLast(s: seq<Byte>)
    requires |s| < 3
    ensures |s| == 2 ==> Encode(s) == [EMap(s[0] / 4), EMap(s[0] % 4 * 16 + s[1] / 16), EMap(s[1] % 16 * 4), PAD]
    ensures |s| == 1 ==> Encode(s) == [EMap(s[0] / 4), EMap(s[0] % 4 * 16), PAD, PAD]
    ensures |s| == 0 ==> Encode(s) == ""
  {
    hide EMap;
  }

  lemma EncodeFirst(a: Byte, b: Byte, c: Byte)
    ensures Text(Group([a, b, c])) == [EMap(a / 4), EMap(a % 4 * 16 + b / 16), EMap(b % 16 * 4 + c / 64), EMap(c % 64)]
  {
    hide EMap;
  }

  /** The longest byte string whose text an `int` can count; its text can be decoded then, URL-safe or not. */
  lemma EncodingFits(n: nat)
    ensures EncodingSize(n) <= MAX_INT <==> n <= 1610612733
    ensures EncodingSize(n) <= MAX_INT ==> DecodingSize(EncodingSize(n)) <= MAX_INT && DecodingSize((4 * n + 2) / 3 + 4) <= MAX_INT
  {
  }

  /** `base64_encode`; the text has to be counted in an `int`. */
  method EncodeBytes(bytes: seq<Byte>) returns (result: string)
    requires EncodingSize(|bytes|) <= MAX_INT
    ensures result == Encode(bytes) && |result| == EncodingSize(|bytes|)
  {
    hide Encode, Group, EMap, Text, EncodingSize;
    var buffer := new char[EncodingSize(|bytes|)];
    EncodedSize(bytes);
    var i, j := 0, 0;
    assert bytes[0..] == bytes && buffer[..0] + Encode(bytes) == Encode(bytes);
    while i < |bytes| - 2
      invariant i <= |bytes| && i % 3 == 0 && j + EncodingSize(|bytes| - i) == buffer.Length
      invariant buffer[..j] + Encode(bytes[i..]) == Encode(bytes)
    {
      var first, second, third := bytes[i], bytes[i + 1], bytes[i + 2];
      SizeStep(|bytes| - i);
      GroupStep(buffer[..j], bytes[i..], bytes[i + 3..]);
      Put(buffer, j, EMap(first / 4), EMap(first % 4 * 16 + second / 16), EMap(second % 16 * 4 + third / 64), EMap(third % 64));
      i, j := i + 3, j + 4;
    }
    SizeLast(|bytes| - i);
    EncodeLast(bytes[i..]);
    if |bytes| % 3 == 2 {
      var first, second := bytes[i], bytes[i + 1];
      Put(buffer, j, EMap(first / 4), EMap(first % 4 * 16 + second / 16), EMap(second % 16 * 4), PAD);
      j := j + 4;
    } else if |bytes| % 3 == 1 {
      var first := bytes[i];
      Put(buffer, j, EMap(first / 4), EMap(first % 4 * 16), PAD, PAD);
      j := j + 4;
    } else {
      assert buffer[..j] + "" == buffer[..j];
    }
    result := buffer[..j];
  }

  lemma SizeStep(n: nat)
    requires n >= 3
    ensures EncodingSize(n) == 4 + EncodingSize(n - 3)
  {
    assert (n + 2) / 3 == 1 + (n - 3 + 2) / 3;
  }

  lemma SizeLast(n: nat)
    requires n < 3
    ensures EncodingSize(n) == if n == 0 then 0 else 4
  {
  }

  /** One group in front of the rest. */
  lemma GroupStep(done: string, s: seq<Byte>, rest: seq<Byte>)
    requires |s| >= 3 && rest == s[3..]
    ensures done + Encode(s) ==
            (done + [EMap(s[0] / 4), EMap(s[0] % 4 * 16 + s[1] / 16), EMap(s[1] % 16 * 4 + s[2] / 64), EMap(s[2] % 64)]) + Encode(rest)
  {
    hide Encode, Group, EMap, Text;
    EncodeStep(s);
    EncodeFirst(s[0], s[1], s[2]);
    assert s[..3] == [s[0], s[1], s[2]];
    var g := Text(Group(s[..3]));
    assert done + (g + Encode(rest)) == (done + g) + Encode(rest);
  }

  function At(s: seq<nat>, i: nat): nat {
    if i < |s| then s[i] else 0
  }

  /** The 24 bits of four digits, and of three bytes; missing ones are zero. */
  function InSixes(g: seq<nat>): nat {
    At(g, 0) * 0x4_0000 + At(g, 1) * 0x1000 + At(g, 2) * 64 + At(g, 3)
  }

  function InEights(s: seq<nat>): nat {
    At(s, 0) * 0x1_0000 + At(s, 1) * 256 + At(s, 2)
  }

  lemma GroupBits(s: seq<Byte>)
    requires |s| <= 3
    ensures InSixes(Group(s)) == InEights(s) && |Group(s)| == if |s| == 0 then 0 else |s| + 1
  {
  }

  /**
   * Section 4 of RFC 4648, group by group: four characters of the table stand
   * for the 24 bits of three bytes; for one or two bytes at the end it is two
   * or three characters, and pads.
   */
  lemma {:induction false} EncodedGroup(s: seq<Byte>, q: nat) returns (g: seq<Digit>)
    requires 3 * q < |s|
    ensures |Encode(s)| >= 4 * q + 4 && |g| <= 4
    ensures Encode(s)[4 * q..4 * q + 4] == seq(4, k requires 0 <= k < 4 => if k < |g| then ALPHABET[g[k]] else '=')
    ensures var bytes := if |s| >= 3 * q + 3 then s[3 * q..3 * q + 3] else s[3 * q..];
      InSixes(g) == InEights(bytes) && |g| == |bytes| + 1
    decreases |s|
  {
    hide Encode, Group, Text, InSixes, InEights;
    if q > 0 {
      var rest := s[3..];
      g := EncodedGroup(rest, q - 1);
      EncodeStep(s);
      GroupBits(s[..3]);
      LaterGroup(Encode(s), Text(Group(s[..3])), Encode(rest), q);
      if |s| >= 3 * q + 3 {
        assert rest[3 * (q - 1)..3 * (q - 1) + 3] == s[3 * q..3 * q + 3];
      } else {
        assert rest[3 * (q - 1)..] == s[3 * q..];
      }
    } else {
      var first := if |s| >= 3 then s[..3] else s;
      g := Group(first);
      GroupBits(first);
      FrontCharacters(s, first);
      assert Encode(s)[4 * q..4 * q + 4] == Encode(s)[..4];
      assert |s| >= 3 ==> s[3 * q..3 * q + 3] == first;
      assert |s| < 3 ==> s[3 * q..] == first;
    }
  }

  lemma LaterGroup(t: string, front: string, rest: string, q: nat)
    requires t == front + rest && |front| == 4 && q > 0 && |rest| >= 4 * (q - 1) + 4
    ensures t[4 * q..4 * q + 4] == rest[4 * (q - 1)..4 * (q - 1) + 4]
  {
  }

  lemma FrontCharacters(s: seq<Byte>, first: seq<Byte>)
    requires s != [] && first == if |s| >= 3 then s[..3] else s
    ensures var g := Group(first);
      |Encode(s)| >= 4 && |g| <= 4
      && Encode(s)[..4] == seq(4, k requires 0 <= k < 4 => if k < |g| then ALPHABET[g[k]] else '=')
  {
    hide EMap, Encode, Digits;
    GroupBits(first);
    var g := Group(first);
    forall k | 0 <= k < |g| ensures EMap(g[k]) == ALPHABET[g[k]] { EMapExactly(g[k]); }
    if |s| >= 3 {
      EncodeStep(s);
    } else {
      EncodeLast(s);
    }
  }

  // Decoding

  /** Two digits joined to a byte, either of which may be -1. */
  function Join(high: int, shift: nat, low: int): Byte {
    if low == -1 then 255 else (high * shift + low) % 256
  }

  function First(d: string): Byte
    requires |d| >= 2
  {
    Join(DMap(d[0]), 4, if DMap(d[1]) == -1 then -1 else DMap(d[1]) / 16)
  }

  function Second(d: string): Byte
    requires |d| >= 3
  {
    Join(DMap(d[1]), 16, if DMap(d[2]) == -1 then -1 else DMap(d[2]) / 4)
  }

  function Third(d: string): Byte
    requires |d| >= 4
  {
    Join(DMap(d[2]), 64, DMap(d[3]))
  }

  /** All that is no digit at the end does not count. */
  function Stripped(d: string): (r: string)
    ensures r <= d && (r != [] ==> DMap(r[|r| - 1]) != -1)
    decreases |d|
  {
    if d != [] && DMap(d[|d| - 1]) == -1 then Stripped(d[..|d| - 1]) else d
  }

  function Zeros(n: int): seq<Byte> {
    if n <= 0 then [] else seq(n, _ => 0)
  }

  /** The last group. */
  function LastGroup(d: string): seq<Byte>
    requires |d| <= 4
  {
    if |d| <= 1 then [] else if |d| == 2 then [First(d)] else if |d| == 3 then [First(d), Second(d)]
    else [First(d), Second(d), Third(d)]
  }

  /** Group by group; one that does not begin with a digit ends it all, with the result left at full size. */
  function DecodeFrom(d: string, done: seq<Byte>, size: nat): seq<Byte>
    decreases |d|
  {
    if |d| <= 4 then done + LastGroup(d)
    else if DMap(d[0]) == -1 then done + Zeros(size - |done|)
    else DecodeFrom(d[4..], done + [First(d), Second(d), Third(d)], size)
  }

  function Decode(d: string): seq<Byte> {
    DecodeFrom(Stripped(d), [], DecodingSize(|d|))
  }

  // What is decoded, bit by bit

  /** A bit of a number in two's complement. */
  function Bit(n: int, k: nat): int
    decreases k
  {
    if k == 0 then n % 2 else Bit(n / 2, k - 1)
  }

  /** The low eight bits of a bitwise or. */
  predicate IsOr(r: Byte, a: int, b: int) {
    forall k: nat | k < 8 :: Bit(r, k) == 1 <==> Bit(a, k) == 1 || Bit(b, k) == 1
  }

  function Pow2(j: nat): (p: nat)
    ensures p > 0
  {
    if j == 0 then 1 else 2 * Pow2(j - 1)
  }

  /** Numbers that differ only further up. */
  lemma {:induction false} SameBits(n: int, r: int, q: int, j: nat, k: nat)
    requires n == r + q * Pow2(j) && k < j
    ensures Bit(n, k) == Bit(r, k)
    decreases k
  {
    hide Pow2;
    Doubled(q, j);
    Halved(n, r, q * Pow2(j - 1));
    if k > 0 { SameBits(n / 2, r / 2, q, j - 1, k - 1); }
  }

  lemma Doubled(q: int, j: nat)
    requires j > 0
    ensures q * Pow2(j) == 2 * (q * Pow2(j - 1)) && Pow2(j) == 2 * Pow2(j - 1)
  {
  }

  lemma Halved(n: int, r: int, m: int)
    requires n == r + 2 * m
    ensures n % 2 == r % 2 && n / 2 == r / 2 + m
  {
  }

  lemma {:induction false} ZeroBits(k: nat)
    ensures Bit(0, k) == 0 && Bit(-1, k) == 1
  {
    if k > 0 { ZeroBits(k - 1); }
  }

  /** A sum whose parts have no bit in common. */
  lemma {:induction false} SumBits(high: int, j: nat, low: nat, k: nat)
    requires low < Pow2(j)
    ensures Bit(high * Pow2(j) + low, k) == 1 <==> Bit(high * Pow2(j), k) == 1 || Bit(low, k) == 1
    decreases k
  {
    hide Pow2;
    if j == 0 {
      assert Pow2(0) == 1 by { PowersUsed(); }
      ZeroBits(k);
    } else {
      Doubled(high, j);
      Halved(high * Pow2(j) + low, low, high * Pow2(j - 1));
      Halved(high * Pow2(j), 0, high * Pow2(j - 1));
      if k > 0 { SumBits(high, j - 1, low / 2, k - 1); }
    }
  }

  /** Joining is or-ing the low digit's bits to the high digit's, shifted; no digit is all ones. */
  lemma {:induction false} JoinIsOr(high: int, j: nat, low: int)
    requires -1 <= low < Pow2(j)
    ensures IsOr(Join(high, Pow2(j), low), high * Pow2(j), low)
  {
    hide Pow2;
    forall k: nat | k < 8
      ensures Bit(Join(high, Pow2(j), low), k) == 1 <==> Bit(high * Pow2(j), k) == 1 || Bit(low, k) == 1
    {
      if low == -1 {
        ZeroBits(k);
        Ones(k);
      } else {
        var n := high * Pow2(j) + low;
        PowersUsed();
        SameBits(n, n % 256, n / 256, 8, k);
        SumBits(high, j, low, k);
      }
    }
  }

  lemma Ones(k: nat)
    requires k < 8
    ensures Bit(255, k) == 1
  {
    PowersUsed();
    ZeroBits(k);
    SameBits(-1, 255, -1, 8, k);
  }

  lemma PowersUsed()
    ensures Pow2(0) == 1 && Pow2(2) == 4 && Pow2(4) == 16 && Pow2(6) == 64 && Pow2(8) == 256
  {
    assert Pow2(2) == 2 * Pow2(1) && Pow2(4) == 2 * Pow2(3) && Pow2(6) == 2 * Pow2(5) && Pow2(8) == 2 * Pow2(7);
  }

  /**
   * The three bytes of a group are what or-ing together the shifted digits
   * comes to, with -1 for what is no digit, whose bits are all ones.
   */
  lemma GroupOrs(d: string)
    ensures |d| >= 2 ==> IsOr(First(d), DMap(d[0]) * 4, DMap(d[1]) / 16)
    ensures |d| >= 3 ==> IsOr(Second(d), DMap(d[1]) * 16, DMap(d[2]) / 4)
    ensures |d| >= 4 ==> IsOr(Third(d), DMap(d[2]) * 64, DMap(d[3]))
  {
    hide IsOr, Join, Pow2, DMap;
    PowersUsed();
    forall i | 0 <= i < |d| ensures -1 <= DMap(d[i]) < 64 { MapsAgreeBack(d[i]); }
    if |d| >= 2 { JoinIsOr(DMap(d[0]), 2, DMap(d[1]) / 16); }
    if |d| >= 3 { JoinIsOr(DMap(d[1]), 4, DMap(d[2]) / 4); }
    if |d| >= 4 { JoinIsOr(DMap(d[2]), 6, DMap(d[3])); }
  }

  /** So many groups in front of the last one begin with a digit. */
  predicate GroupsBegin(d: string, q: nat) {
    4 * q <= |d| && forall j | 0 <= j < q :: 4 * j + 4 < |d| && InTable(d[4 * j])
  }

  /** The bytes of so many groups. */
  function GroupBytes(d: string, q: nat): seq<Byte>
    requires GroupsBegin(d, q)
  {
    if q == 0 then [] else GroupBytes(d, q - 1) + [First(d[4 * (q - 1)..]), Second(d[4 * (q - 1)..]), Third(d[4 * (q - 1)..])]
  }

  /** Group after group, as long as they begin with a digit. */
  lemma {:induction false} DecodeGroups(d: string, done: seq<Byte>, size: nat, q: nat)
    requires GroupsBegin(d, q)
    ensures DecodeFrom(d, done, size) == DecodeFrom(d[4 * q..], done + GroupBytes(d, q), size)
  {
    hide First, Second, Third, DMap, DecodeFrom, InTable;
    if q == 0 {
      assert d[0..] == d && done + [] == done;
    } else {
      DecodeGroups(d, done, size, q - 1);
      assert 4 * (q - 1) + 4 < |d| && InTable(d[4 * (q - 1)]);
      DecodeNext(d, 4 * (q - 1), done + GroupBytes(d, q - 1), size);
      var rest := d[4 * (q - 1)..];
      var group := [First(rest), Second(rest), Third(rest)];
      assert done + (GroupBytes(d, q - 1) + group) == (done + GroupBytes(d, q - 1)) + group;
    }
  }

  lemma {:induction false} DecodeNext(d: string, at: nat, front: seq<Byte>, size: nat)
    requires at + 4 < |d| && InTable(d[at])
    ensures DecodeFrom(d[at..], front, size) == DecodeFrom(d[at + 4..], front + [First(d[at..]), Second(d[at..]), Third(d[at..])], size)
  {
    hide First, Second, Third, DMap, InTable;
    DMapExactly(d[at]);
    assert d[at..][4..] == d[at + 4..] && d[at..][0] == d[at];
  }

  /**
   * What a text decodes to: the bytes of its groups, and at the last one as
   * many as there are characters, less one; or, at a group that does not begin
   * with a digit, zeros up to the announced size. What is no digit at the end
   * of the text does not count.
   */
  lemma {:induction false} DecodeExactly(text: string, n: nat, q: nat)
    requires n <= |text| && (forall i | n <= i < |text| :: !InTable(text[i])) && (n > 0 ==> InTable(text[n - 1]))
    requires GroupsBegin(text[..n], q)
    ensures var d, size := text[..n], |text| / 4 * 3;
      && (4 * q + 4 >= n ==> Decode(text) == GroupBytes(d, q) + LastGroup(d[4 * q..]))
      && (4 * q + 4 < n && !InTable(d[4 * q]) ==>
            Decode(text) == GroupBytes(d, q) + seq(if size > 3 * q then size - 3 * q else 0, _ => 0))
      && |GroupBytes(d, q)| == 3 * q
  {
    hide LastGroup, First, Second, Third, DMap, GroupBytes, Stripped, InTable;
    var d := text[..n];
    StrippedIs(text, n);
    DecodeGroups(d, [], DecodingSize(|text|), q);
    assert [] + GroupBytes(d, q) == GroupBytes(d, q);
    GroupBytesSize(d, q);
    if 4 * q + 4 < n { DMapExactly(d[4 * q]); }
  }

  lemma {:induction false} GroupBytesSize(d: string, q: nat)
    requires GroupsBegin(d, q)
    ensures |GroupBytes(d, q)| == 3 * q
  {
    if q > 0 { GroupBytesSize(d, q - 1); }
  }

  lemma {:induction false} StrippedIs(text: string, n: nat)
    requires n <= |text| && (forall i | n <= i < |text| :: !InTable(text[i])) && (n > 0 ==> InTable(text[n - 1]))
    ensures Stripped(text) == text[..n]
    decreases |text|
  {
    hide DMap, InTable;
    if n < |text| {
      DMapExactly(text[|text| - 1]);
      var front := text[..|text| - 1];
      assert front[..n] == text[..n];
      StrippedIs(front, n);
    } else if n > 0 {
      DMapExactly(text[n - 1]);
    }
  }

  /** How many bytes so many digits are written to. */
  function Written(n: nat): nat {
    if n <= 1 then 0 else (n - 1) / 4 * 3 + if n % 4 == 1 then 0 else (n - 1) % 4
  }

  /** How many bytes are written before the end, or before a group that does not begin with a digit. */
  function Reached(d: string): nat
    decreases |d|
  {
    if |d| <= 4 then Written(|d|) else if DMap(d[0]) == -1 then 0 else 3 + Reached(d[4..])
  }

  /** A group in front of the last one does not begin with a digit. */
  predicate StopsEarly(d: string)
    decreases |d|
  {
    |d| > 4 && (DMap(d[0]) == -1 || StopsEarly(d[4..]))
  }

  /** What is looked up in the decoding map on the way is one of its indices. */
  predicate Readable(d: string)
    decreases |d|
  {
    if |d| <= 4 then Ascii(d) else d[0] < 128 as char && (DMap(d[0]) == -1 || (Ascii(d[..4]) && Readable(d[4..])))
  }

  /** What decoding demands of a text: its end and what is read of the rest can be looked up, and the result has room. */
  predicate Decodable(text: string) {
    var d := Stripped(text);
    Ascii(text[|d|..]) && Readable(d) && Reached(d) <= DecodingSize(|text|) && Reached(d) <= MAX_INT
  }

  /**
   * The result has room if and only if the decoding stops early, or the last
   * group of digits is not cut, or what follows the digits makes one group more.
   */
  lemma {:induction false} RoomExactly(text: string)
    ensures var d := Stripped(text);
      Reached(d) <= DecodingSize(|text|) <==> StopsEarly(d) || |d| % 4 <= 1 || |text| / 4 > |d| / 4
  {
    hide Stripped, Reached, StopsEarly;
    ReachedExactly(Stripped(text));
  }

  lemma {:induction false} ReachedExactly(d: string)
    ensures StopsEarly(d) ==> Reached(d) <= |d| / 4 * 3
    ensures !StopsEarly(d) ==> Reached(d) == |d| / 4 * 3 + if |d| % 4 <= 1 then 0 else |d| % 4 - 1
    decreases |d|
  {
    hide DMap;
    if |d| > 4 {
      assert |d| / 4 == 1 + |d[4..]| / 4 && |d| % 4 == |d[4..]| % 4;
      if DMap(d[0]) != -1 { ReachedExactly(d[4..]); }
    }
  }

  /** Two digits without padding have no room; a bad first character stops before anything is written. */
  lemma DecodingWitnesses()
    ensures Stripped("QQ") == "QQ" && Reached("QQ") == 1 && DecodingSize(2) == 0 && !Decodable("QQ")
    ensures Decodable("*AAAAA") && Decode("*AAAAA") == [0, 0, 0]
  {
    assert StopsEarly("*AAAAA") && Readable("*AAAAA");
  }

  /** Plain text is readable everywhere. */
  lemma {:induction false} AsciiReadable(d: string)
    requires Ascii(d)
    ensures Readable(d)
    decreases |d|
  {
    hide DMap;
    if |d| > 4 {
      assert d[0] in d;
      forall c | c in d[..4] ensures c < 128 as char { assert c in d; }
      forall c | c in d[4..] ensures c < 128 as char { assert c in d; }
      AsciiReadable(d[4..]);
    }
  }

  /** A text of plain characters with room for all its digits can be decoded. */
  lemma {:induction false} AsciiDecodable(text: string)
    requires Ascii(text) && Written(|Stripped(text)|) <= DecodingSize(|text|) && Written(|Stripped(text)|) <= MAX_INT
    ensures Decodable(text)
  {
    hide Stripped, DMap, Readable, Written, DecodingSize, Reached;
    var d := Stripped(text);
    forall c | c in d ensures c < 128 as char { assert c in text; }
    forall c | c in text[|d|..] ensures c < 128 as char { assert c in text; }
    AsciiReadable(d);
    ReachedWritten(d);
  }

  lemma {:induction false} ReachedWritten(d: string)
    ensures Reached(d) <= Written(|d|)
    decreases |d|
  {
    hide DMap, Written;
    if |d| > 4 {
      ReachedWritten(d[4..]);
      WrittenStep(|d|);
    }
  }

  method StrippedLength(text: string) returns (rem: nat)
    ensures rem <= |text| && text[..rem] == Stripped(text)
  {
    rem := |text|;
    assert text[..rem] == text;
    while rem > 0 && DMap(text[rem - 1]) == -1
      invariant rem <= |text| && Stripped(text[..rem]) == Stripped(text)
    {
      assert text[..rem][..rem - 1] == text[..rem - 1];
      rem := rem - 1;
    }
  }

  /** `base64_decode`. */
  method DecodeText(text: string) returns (result: seq<Byte>)
    requires Decodable(text)
    ensures result == Decode(text)
  {
    hide DMap, First, Second, Third, LastGroup, DecodeFrom, Written, Readable, Ascii, Stripped, DecodingSize;
    var size := DecodingSize(|text|);
    var buffer := new Byte[size](_ => 0);
    var rem := StrippedLength(text);
    ghost var digits := Stripped(text);
    var i, at := 0, 0;
    assert digits[0..] == digits && buffer[..0] == [];
    while rem > 4
      invariant at + rem == |digits| && i <= size
      invariant DecodeFrom(digits[at..], buffer[..i], size) == DecodeFrom(digits, [], size)
      invariant i + Reached(digits[at..]) <= size
      invariant forall k | i <= k < size :: buffer[k] == 0
      decreases rem
    {
      ghost var d, done := digits[at..], buffer[..i];
      var group := text[at..at + 4];
      assert group == d[..4] && group[0] == text[at] && d[4..] == digits[at + 4..];
      DecodeStep(d, group, done, size);
      if DMap(text[at]) == -1 {
        result := buffer[..];
        assert result == done + Zeros(size - i);
        return;
      }
      buffer[i], buffer[i + 1], buffer[i + 2] := First(group), Second(group), Third(group);
      assert buffer[..i + 3] == done + [First(group), Second(group), Third(group)];
      rem, i, at := rem - 4, i + 3, at + 4;
    }
    assert text[at..at + rem] == digits[at..];
    DecodeLast(digits[at..], buffer[..i], size);
    result := WriteLast(buffer, i, text[at..at + rem]);
  }

  lemma DecodeStep(d: string, group: string, done: seq<Byte>, size: nat)
    requires |d| > 4 && group == d[..4]
    ensures group[0] == d[0]
    ensures DMap(d[0]) == -1 ==> DecodeFrom(d, done, size) == done + Zeros(size - |done|)
    ensures DMap(d[0]) != -1 ==> DecodeFrom(d, done, size) == DecodeFrom(d[4..], done + [First(group), Second(group), Third(group)], size)
  {
    hide DMap, First, Second, Third;
    FrontGroup(d, group);
  }

  lemma DecodeLast(d: string, done: seq<Byte>, size: nat)
    requires |d| <= 4
    ensures DecodeFrom(d, done, size) == done + LastGroup(d)
  {
  }

  /** The switch that falls through from the number of digits left. */
  method WriteLast(buffer: array<Byte>, i: nat, d: string) returns (result: seq<Byte>)
    requires |d| <= 4 && i + Written(|d|) <= buffer.Length
    modifies buffer
    ensures result == old(buffer[..i]) + LastGroup(d)
  {
    hide DMap, First, Second, Third;
    var written := i;
    if |d| == 4 {
      buffer[i + 2] := Third(d);
      written := written + 1;
    }
    if |d| >= 3 {
      buffer[i + 1] := Second(d);
      written := written + 1;
    }
    if |d| >= 2 {
      buffer[i] := First(d);
      written := written + 1;
    }
    result := buffer[..written];
  }

  lemma WrittenStep(n: nat)
    requires n > 4
    ensures Written(n) == 3 + Written(n - 4)
  {
    assert (n - 1) / 4 == 1 + (n - 5) / 4;
  }

  // From end to end

  lemma {:induction false} StrippedPadded(d: string, p: string)
    requires (d != [] ==> DMap(d[|d| - 1]) != -1) && forall c | c in p :: DMap(c) == -1
    ensures Stripped(d + p) == d
    decreases |p|
  {
    if p == [] {
      assert d + p == d;
    } else {
      var q := p[..|p| - 1];
      assert p[|p| - 1] in p && (d + p)[|d + p| - 1] == p[|p| - 1];
      assert (d + p)[..|d + p| - 1] == d + q;
      assert forall c | c in q :: c in p;
      StrippedPadded(d, q);
    }
  }

  lemma JoinFirst(a: Byte, x: nat)
    requires x < 16
    ensures Join(a / 4, 4, (a % 4 * 16 + x) / 16) == a
  {
    assert (a % 4 * 16 + x) / 16 == a % 4;
  }

  lemma JoinSecond(h: nat, b: Byte, y: nat)
    requires h < 4 && y < 4
    ensures Join(h * 16 + b / 16, 16, (b % 16 * 4 + y) / 4) == b
  {
    assert (b % 16 * 4 + y) / 4 == b % 16;
    assert (h * 16 + b / 16) * 16 + b % 16 == h * 256 + b;
  }

  lemma JoinThird(h: nat, c: Byte)
    requires h < 16
    ensures Join(h * 4 + c / 64, 64, c % 64) == c
  {
    assert (h * 4 + c / 64) * 64 + c % 64 == h * 256 + c;
  }

  /** What the decoder reads off the digits of a group. */
  lemma ReadDigits(g: seq<Digit>)
    ensures |g| >= 2 ==> First(Text(g)) == Join(g[0], 4, g[1] / 16)
    ensures |g| >= 3 ==> Second(Text(g)) == Join(g[1], 16, g[2] / 4)
    ensures |g| >= 4 ==> Third(Text(g)) == Join(g[2], 64, g[3])
  {
    hide EMap, DMap;
    forall i | 0 <= i < |g| ensures DMap(Text(g)[i]) == g[i] { MapsAgree(g[i]); }
  }

  /** The digits of one group give its bytes back. */
  lemma GroupComesBack(s: seq<Byte>)
    requires |s| <= 3
    ensures LastGroup(Text(Group(s))) == s
    ensures |s| == 3 ==> var d := Text(Group(s)); [First(d), Second(d), Third(d)] == s
  {
    hide First, Second, Third, Join, Text;
    ReadDigits(Group(s));
    if |s| >= 1 { JoinFirst(s[0], if |s| >= 2 then s[1] / 16 else 0); }
    if |s| >= 2 { JoinSecond(s[0] % 4, s[1], if |s| == 3 then s[2] / 64 else 0); }
    if |s| == 3 { JoinThird(s[1] % 16, s[2]); }
  }

  lemma {:induction false} DigitsComeBack(s: seq<Byte>, done: seq<Byte>, size: nat)
    ensures DecodeFrom(Text(Digits(s)), done, size) == done + s
    decreases |s|
  {
    hide First, Second, Third, Group, Text, LastGroup;
    if |s| <= 3 {
      GroupComesBack(s);
    } else {
      var d, g, rest := Text(Digits(s)), Group(s[..3]), Digits(s[3..]);
      TextConcat(g, rest);
      assert d[4..] == Text(rest) && d[..4] == Text(g);
      FrontGroup(d, Text(g));
      GroupComesBack(s[..3]);
      MapsAgree(g[0]);
      DigitsComeBack(s[3..], done + s[..3], size);
      assert done + s[..3] + s[3..] == done + s;
    }
  }

  lemma FrontGroup(d: string, g: string)
    requires |d| >= 4 && d[..4] == g
    ensures First(d) == First(g) && Second(d) == Second(g) && Third(d) == Third(g)
  {
    assert forall i | 0 <= i < 4 :: d[i] == d[..4][i];
  }

  lemma {:induction false} DigitsOnly(s: seq<Byte>)
    ensures forall c | c in Text(Digits(s)) :: DMap(c) != -1 && c != PAD
    ensures s != [] ==> Text(Digits(s)) != []
  {
    forall d: Digit ensures DMap(EMap(d)) == d && EMap(d) != PAD { MapsAgree(d); }
  }

  lemma EncodedAscii(s: seq<Byte>)
    ensures Ascii(Encode(s))
  {
    forall i | 0 <= i < |Digits(s)| ensures Text(Digits(s))[i] < 128 as char {
      assert Text(Digits(s))[i] == EMap(Digits(s)[i]);
    }
  }

  lemma PaddingOnly(n: nat)
    ensures forall c | c in Padding(n) :: DMap(c) == -1
  {
  }

  /** Decoding undoes encoding, and there is room for what is written. */
  lemma WrittenFits(n: nat)
    ensures Written((4 * n + 2) / 3) <= DecodingSize(EncodingSize(n))
  {
    var q, r := n / 3, n % 3;
    assert n == 3 * q + r;
    WrittenDigits(q, r);
    assert (4 * n + 2) / 3 == 4 * q + (4 * r + 2) / 3;
    assert (n + 2) / 3 == q + if r == 0 then 0 else 1;
  }

  lemma WrittenDigits(q: nat, r: nat)
    requires r < 3
    ensures Written(4 * q + (4 * r + 2) / 3) == 3 * q + r
    ensures forall k: nat :: DecodingSize(4 * k) == 3 * k
  {
    if r == 0 {
      if q > 0 { assert (4 * q - 1) / 4 == q - 1 && (4 * q - 1) % 4 == 3; }
    } else if r == 1 {
      assert (4 * q + 1) / 4 == q && (4 * q + 1) % 4 == 1;
    } else {
      assert (4 * q + 2) / 4 == q && (4 * q + 2) % 4 == 2;
    }
  }

  lemma {:induction false} DecodeUndoesEncode(s: seq<Byte>)
    ensures Decode(Encode(s)) == s
    ensures Ascii(Encode(s))
    ensures Written(|Stripped(Encode(s))|) <= DecodingSize(|Encode(s)|)
  {
    hide Digits, Text, DecodeFrom, DMap, Written, DecodingSize, EncodingSize, Stripped, Padding, Ascii;
    DigitsOnly(s);
    EncodedAscii(s);
    WrittenFits(|s|);
    PaddingOnly(|s|);
    EncodedSize(s);
    StrippedPadded(Text(Digits(s)), Padding(|s|));
    DigitsComeBack(s, [], DecodingSize(|Encode(s)|));
    assert [] + s == s;
  }

  // The URL-safe form

  function UrlChar(c: char): char {
    if c == '+' then '-' else if c == '/' then '_' else c
  }

  /** Two characters changed, padding left out. */
  function UrlSafe(t: string): string {
    if t == [] then [] else (if t[0] == PAD then [] else [UrlChar(t[0])]) + UrlSafe(t[1..])
  }

  lemma {:induction false} UrlSafeConcat(a: string, b: string)
    ensures UrlSafe(a + b) == UrlSafe(a) + UrlSafe(b)
  {
    if a == [] {
      assert a + b == b;
    } else {
      assert (a + b)[1..] == a[1..] + b;
      UrlSafeConcat(a[1..], b);
    }
  }

  /** `base64_uri_encode` in place: what is still to be read has not been written over. */
  method UrlEncode(data: array<char>) returns (j: nat)
    modifies data
    ensures j <= data.Length && data[..j] == UrlSafe(old(data[..]))
  {
    ghost var text := data[..];
    var i := 0;
    j := 0;
    while i < data.Length
      invariant j <= i <= data.Length
      invariant data[..j] == UrlSafe(text[..i])
      invariant data[i..] == text[i..]
    {
      assert data[i] == text[i..][0];
      assert text[..i + 1] == text[..i] + [text[i]] && [text[i]][1..] == [];
      UrlSafeConcat(text[..i], [text[i]]);
      ghost var before := data[..j];
      match data[i] {
        case '+' => data[j] := '-'; j := j + 1;
        case '/' => data[j] := '_'; j := j + 1;
        case '=' =>
        case _ => data[j] := data[i]; j := j + 1;
      }
      assert data[..j] == before + UrlSafe([text[i]]);
      assert data[i + 1..] == text[i + 1..];
      i := i + 1;
    }
    assert text[..i] == text;
  }

  function PlainChar(c: char): char {
    if c == '-' then '+' else if c == '_' then '/' else c
  }

  function PlainText(t: string): (r: string)
    ensures |r| == |t|
  {
    seq(|t|, i requires 0 <= i < |t| => PlainChar(t[i]))
  }

  /** The string handed to the decoder: padded to whole groups, with NULs up to the room that was made. */
  function Padded(t: string): string {
    var pads := (4 - |t| % 4) % 4;
    PlainText(t) + seq(pads, _ => PAD) + seq(4 - pads, _ => '\0')
  }

  function UrlDecoded(t: string): seq<Byte> {
    Decode(Padded(t))
  }

  /** `base64_uri_decode`. */
  method UrlDecode(data: string) returns (result: seq<Byte>)
    requires Decodable(Padded(data))
    ensures result == UrlDecoded(data)
  {
    hide Decodable, Decode, Stripped, Readable, Reached;
    var text := new char[|data| + 4](_ => '\0');
    var i := 0;
    while i < |data|
      invariant i <= |data|
      invariant text[..i] == PlainText(data)[..i]
      invariant forall k | i <= k < text.Length :: text[k] == '\0'
    {
      text[i] := match data[i] case '-' => '+' case '_' => '/' case _ => data[i];
      i := i + 1;
    }
    var trailer := 4 - i % 4;
    if trailer < 4 {
      while trailer > 0
        invariant |data| <= i && i + trailer == |data| + (4 - |data| % 4) && 0 <= trailer
        invariant text[..|data|] == PlainText(data)
        invariant forall k | |data| <= k < i :: text[k] == PAD
        invariant forall k | i <= k < text.Length :: text[k] == '\0'
      {
        text[i] := PAD;
        i, trailer := i + 1, trailer - 1;
      }
    }
    assert text[..] == Padded(data);
    result := DecodeText(text[..]);
  }

  lemma PaddedAscii(t: string)
    requires Ascii(t)
    ensures Ascii(Padded(t))
  {
    forall i | 0 <= i < |t| ensures PlainText(t)[i] < 128 as char { assert t[i] in t; }
  }

  /** Any plain text can be decoded as far as an `int` can count. */
  lemma {:induction false} UrlDecodable(data: string)
    requires Ascii(data) && DecodingSize(|data| + 4) <= MAX_INT
    ensures Decodable(Padded(data))
  {
    hide Decodable, Written, DecodingSize, Stripped, Ascii;
    RoomForAll(data);
    PaddedAscii(data);
    AsciiDecodable(Padded(data));
  }

  /** The padded text always has room for what is written. */
  lemma RoomForAll(t: string)
    ensures Written(|Stripped(Padded(t))|) <= DecodingSize(|Padded(t)|)
  {
    hide Written, DecodingSize, Stripped, PlainText, DMap;
    var pads := (4 - |t| % 4) % 4;
    var tail := seq(pads, _ => PAD) + seq(4 - pads, _ => '\0');
    assert Padded(t) == PlainText(t) + tail;
    NoDigitsIn(tail);
    StrippedTail(PlainText(t), tail);
    RoomFor(|Stripped(Padded(t))|, |t|);
  }

  lemma NoDigitsIn(tail: string)
    requires forall c | c in tail :: c == PAD || c == '\0'
    ensures forall c | c in tail :: DMap(c) == -1
  {
  }

  lemma RoomFor(written: nat, n: nat)
    requires written <= n
    ensures Written(written) <= DecodingSize(n + 4)
  {
    assert (written - 1) / 4 <= n / 4;
  }

  lemma {:induction false} StrippedTail(d: string, p: string)
    requires forall c | c in p :: DMap(c) == -1
    ensures |Stripped(d + p)| <= |d|
    decreases |p|
  {
    if p == [] {
      assert d + p == d;
    } else {
      assert p[|p| - 1] in p && (d + p)[|d + p| - 1] == p[|p| - 1];
      assert (d + p)[..|d + p| - 1] == d + p[..|p| - 1];
      assert forall c | c in p[..|p| - 1] :: c in p;
      StrippedTail(d, p[..|p| - 1]);
    }
  }

  /** The URL-safe form of digits, and the way back. */
  lemma {:induction false} UrlDigits(t: string)
    requires forall c | c in t :: DMap(c) != -1
    ensures |UrlSafe(t)| == |t| && PlainText(UrlSafe(t)) == t
  {
    if t != [] {
      assert t[0] in t && forall c | c in t[1..] :: c in t;
      UrlDigits(t[1..]);
      var u := UrlSafe(t);
      assert u == [UrlChar(t[0])] + UrlSafe(t[1..]);
      forall i | 0 <= i < |t| ensures PlainText(u)[i] == t[i] {
        if i > 0 { assert PlainText(u)[i] == PlainText(UrlSafe(t[1..]))[i - 1] == t[1..][i - 1]; }
      }
    }
  }

  lemma {:induction false} OnlyPads(n: nat)
    ensures UrlSafe(Padding(n)) == ""
  {
    assert "="[1..] == "" && "=="[1..] == "=" && UrlSafe("=") == "";
  }

  /** The URL-safe form has just the digits, and decodes to the bytes. */
  lemma {:induction false} UrlRoundTrip(s: seq<Byte>)
    ensures |UrlSafe(Encode(s))| == (4 * |s| + 2) / 3
    ensures UrlDecoded(UrlSafe(Encode(s))) == s
  {
    hide Digits, Text, UrlSafe, PlainText, Stripped, DecodeFrom, DMap, Encode;
    var t, u := Text(Digits(s)), UrlSafe(Encode(s));
    DigitsOnly(s);
    UrlText(s);
    var pads := (4 - |u| % 4) % 4;
    var tail := seq(pads, _ => PAD) + seq(4 - pads, _ => '\0');
    assert Padded(u) == t + tail;
    NoDigitsIn(tail);
    StrippedPadded(t, tail);
    DigitsComeBack(s, [], DecodingSize(|Padded(u)|));
    assert [] + s == s;
  }

  lemma {:induction false} UrlText(s: seq<Byte>)
    ensures |UrlSafe(Encode(s))| == (4 * |s| + 2) / 3 && PlainText(UrlSafe(Encode(s))) == Text(Digits(s))
  {
    hide Digits, Text, UrlSafe, PlainText, DMap;
    var t := Text(Digits(s));
    DigitsOnly(s);
    UrlDigits(t);
    UrlSafeConcat(t, Padding(|s|));
    OnlyPads(|s|);
    assert UrlSafe(t) + "" == UrlSafe(t);
  }

  /** Table 2 of RFC 4648. */
  const URL_ALPHABET := UPPER + LOWER + NUMERALS + "-_"

  /** The URL-safe text is that of the same digits in the other table, without pads. */
  lemma {:induction false} UrlExactly(s: seq<Byte>)
    ensures |UrlSafe(Encode(s))| == |Digits(s)|
    ensures forall i | 0 <= i < |Digits(s)| :: UrlSafe(Encode(s))[i] == URL_ALPHABET[Digits(s)[i]] && Text(Digits(s))[i] == ALPHABET[Digits(s)[i]]
  {
    hide Digits, UrlSafe, EMap, DMap, Text, Encode;
    var t, u := Text(Digits(s)), UrlSafe(Encode(s));
    UrlText(s);
    UrlFront(s);
    forall i | 0 <= i < |Digits(s)| ensures u[i] == URL_ALPHABET[Digits(s)[i]] && t[i] == ALPHABET[Digits(s)[i]] {
      var d := Digits(s)[i];
      EMapExactly(d);
      UrlDigit(d);
    }
  }

  lemma UrlFront(s: seq<Byte>)
    ensures |UrlSafe(Encode(s))| == |Digits(s)| && forall i | 0 <= i < |Digits(s)| :: UrlSafe(Encode(s))[i] == UrlChar(EMap(Digits(s)[i]))
  {
    hide Digits, UrlSafe, EMap, DMap;
    var t := Text(Digits(s));
    DigitsOnly(s);
    UrlSafeConcat(t, Padding(|s|));
    OnlyPads(|s|);
    UrlEach(t);
    assert UrlSafe(t) + "" == UrlSafe(t);
  }

  lemma {:induction false} UrlEach(t: string)
    requires forall c | c in t :: c != PAD
    ensures |UrlSafe(t)| == |t| && forall i | 0 <= i < |t| :: UrlSafe(t)[i] == UrlChar(t[i])
  {
    if t != [] {
      assert t[0] in t && forall c | c in t[1..] :: c in t;
      UrlEach(t[1..]);
    }
  }

  lemma UrlDigit(d: Digit)
    ensures UrlChar(EMap(d)) == URL_ALPHABET[d]
  {
    hide EMap;
    EMapExactly(d);
    if d < 26 { assert URL_ALPHABET[d] == ALPHABET[d] == UPPER[d]; Letters(d); }
    else if d < 52 { assert URL_ALPHABET[d] == ALPHABET[d] == LOWER[d - 26]; Letters(d - 26); }
    else if d < 62 { assert URL_ALPHABET[d] == ALPHABET[d] == NUMERALS[d - 52]; Numerals(d - 52); }
  }

  /** What was encoded is within what the decoders demand, as long as an `int` can count it. */
  lemma {:induction false} EncodedDecodable(s: seq<Byte>)
    requires EncodingSize(|s|) <= MAX_INT
    ensures Decodable(Encode(s)) && Decodable(Padded(UrlSafe(Encode(s))))
  {
    hide Decodable, Written, Stripped, Ascii, Encode, UrlSafe, Padded, DecodingSize, EncodingSize;
    EncodingFits(|s|);
    EncodedSize(s);
    DecodeUndoesEncode(s);
    AsciiDecodable(Encode(s));
    UrlRoundTrip(s);
    UrlSafeAscii(Encode(s));
    UrlDecodable(UrlSafe(Encode(s)));
  }

  lemma {:induction false} UrlSafeAscii(t: string)
    requires Ascii(t)
    ensures Ascii(UrlSafe(t))
  {
    if t != [] {
      assert t[0] in t;
      forall c | c in t[1..] ensures c < 128 as char { assert c in t; }
      UrlSafeAscii(t[1..]);
    }
  }
}
