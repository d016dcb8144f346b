/** Texts cut in place by NUL characters: parameter lists and C strings in a buffer. */
module HttpText {
  import opened AutoBuffers
  import opened Options

  const NUL := '\0'

  /** The C string at an offset. */
  function CString(s: string, at: nat): string
    requires at <= |s|
    decreases |s| - at
  {
    if at < |s| && s[at] != NUL then [s[at]] + CString(s, at + 1) else []
  }

  lemma {:induction false} CStringIs(s: string, at: nat, w: string)
    requires at + |w| < |s| && s[at..at + |w|] == w && s[at + |w|] == NUL && NUL !in w
    ensures CString(s, at) == w
    decreases |w|
  {
    if w != [] {
      assert s[at] == s[at..at + |w|][0] == w[0];
      assert s[at + 1..at + 1 + |w[1..]|] == s[at..at + |w|][1..];
      CStringIs(s, at + 1, w[1..]);
    }
  }

  /** Where a key starts, and where its value does if there is one. */
  datatype Pair = Pair(key: nat, value: Option<nat>)

  function Trimmed(s: string, k: nat, trim: bool): (i: nat)
    requires k <= |s|
    ensures k <= i <= |s| && (!trim ==> i == k)
    ensures trim ==> (forall j | k <= j < i :: s[j] == ' ') && (i < |s| ==> s[i] != ' ')
    decreases |s| - k
  {
    if trim && k < |s| && s[k] == ' ' then Trimmed(s, k + 1, trim) else k
  }

  datatype Scanned = Scanned(text: string, pairs: seq<Pair>)

  function Before(p: Pair, r: Scanned): Scanned {
    Scanned(r.text, [p] + r.pairs)
  }

  /**
   * `parse_string` from position `t` on, with the current key at `k` and its
   * value at `v`: the text as it is left behind and the pairs found.
   */
  function Scan(s: string, t: nat, k: nat, v: Option<nat>, div: char, trim: bool): (r: Scanned)
    requires k <= t <= |s|
    ensures |r.text| == |s|
    decreases |s| - t
  {
    if t == |s| then Scanned(s, [])
    else if s[t] == NUL then Scanned(s, [Pair(Trimmed(s, k, trim), v)])
    else if s[t] == div then
      Before(Pair(Trimmed(s[t := NUL], k, trim), v), Scan(s[t := NUL], t + 1, t + 1, None, div, trim))
    else if s[t] == '=' then Scan(s[t := NUL], t + 1, k, Some(t + 1), div, trim)
    else Scan(s, t + 1, k, v, div, trim)
  }

  function Moved(p: Pair, shift: nat): Pair {
    Pair(shift + p.key, if p.value.Some? then Some(shift + p.value.value) else None)
  }

  function Shifted(pairs: seq<Pair>, shift: nat): seq<Pair> {
    seq(|pairs|, i requires 0 <= i < |pairs| => Moved(pairs[i], shift))
  }

  // Printing and parsing back

  datatype Entry = Entry(key: string, value: Option<string>)

  function PrintEntry(e: Entry): string {
    e.key + if e.value.Some? then "=" + e.value.value else ""
  }

  function PrintEntries(es: seq<Entry>, div: char): string
    requires es != []
  {
    PrintEntry(es[0]) + if |es| == 1 then [NUL] else [div] + PrintEntries(es[1..], div)
  }

  /** The same text with its marks turned into string ends. */
  function MarkEntry(e: Entry): string {
    e.key + (if e.value.Some? then [NUL] + e.value.value else []) + [NUL]
  }

  function MarkEntries(es: seq<Entry>): string
    requires es != []
  {
    MarkEntry(es[0]) + if |es| == 1 then [] else MarkEntries(es[1..])
  }

  function Spaces(s: string, trim: bool): (n: nat)
    ensures n <= |s|
  {
    if trim && s != [] && s[0] == ' ' then 1 + Spaces(s[1..], trim) else 0
  }

  function OffsetsOf(e: Entry, at: nat, trim: bool): Pair {
    Pair(at + Spaces(e.key, trim), if e.value.Some? then Some(at + |e.key| + 1) else None)
  }

  function Offsets(es: seq<Entry>, at: nat, trim: bool): seq<Pair> {
    if es == [] then [] else [OffsetsOf(es[0], at, trim)] + Offsets(es[1..], at + |MarkEntry(es[0])|, trim)
  }

  predicate Plain(s: string, div: char) {
    forall c | c in s :: c != NUL && c != '=' && c != div
  }

  predicate EntryOk(e: Entry, div: char) {
    Plain(e.key, div) && (e.value.Some? ==> Plain(e.value.value, div))
  }

  /** Plain characters are passed over. */
  lemma {:induction false} ScanPlain(s: string, t: nat, k: nat, v: Option<nat>, div: char, trim: bool, w: string)
    requires k <= t && t + |w| <= |s| && s[t..t + |w|] == w && Plain(w, div)
    ensures Scan(s, t, k, v, div, trim) == Scan(s, t + |w|, k, v, div, trim)
    decreases |w|
  {
    if w != [] {
      assert s[t] == s[t..t + |w|][0] == w[0];
      assert w[0] in w;
      assert s[t + 1..t + 1 + |w[1..]|] == s[t..t + |w|][1..];
      forall c | c in w[1..] ensures c != NUL && c != '=' && c != div { assert c in w; }
      ScanPlain(s, t + 1, k, v, div, trim, w[1..]);
    }
  }

  lemma {:induction false} TrimmedIs(s: string, k: nat, trim: bool, key: string)
    requires k + |key| < |s| && s[k..k + |key|] == key && s[k + |key|] == NUL
    ensures Trimmed(s, k, trim) == k + Spaces(key, trim)
    decreases |key|
  {
    if key != [] {
      assert s[k] == s[k..k + |key|][0] == key[0];
      assert s[k + 1..k + 1 + |key[1..]|] == s[k..k + |key|][1..];
      if trim && key[0] == ' ' { TrimmedIs(s, k + 1, trim, key[1..]); }
    }
  }

  /** At an end mark the pair is complete. */
  lemma ScanMark(s: string, t: nat, k: nat, v: Option<nat>, div: char, trim: bool, key: string)
    requires k + |key| <= t < |s| && (s[t] == NUL || s[t] == div) && div != '='
    requires s[k..k + |key|] == key && (s[k + |key|] == NUL || k + |key| == t)
    ensures var done, p := s[t := NUL], Pair(k + Spaces(key, trim), v);
      Scan(s, t, k, v, div, trim) ==
      if s[t] == NUL then Scanned(done, [p]) else Before(p, Scan(done, t + 1, t + 1, None, div, trim))
  {
    var done := s[t := NUL];
    assert done[k..k + |key|] == key && done[k + |key|] == NUL;
    TrimmedIs(done, k, trim, key);
    assert s[t] == NUL ==> done == s;
  }

  lemma {:induction false} ScanBare(pre: string, key: string, rest: string, div: char, trim: bool)
    requires Plain(key, div) && div != '=' && rest != [] && (rest[0] == NUL || rest[0] == div)
    ensures var s, done, t := pre + key + rest, pre + key + [NUL] + rest[1..], |pre| + |key|;
      var p := Pair(|pre| + Spaces(key, trim), None);
      Scan(s, |pre|, |pre|, None, div, trim) ==
      if rest[0] == NUL then Scanned(done, [p]) else Before(p, Scan(done, t + 1, t + 1, None, div, trim))
  {
    hide Scan, Spaces, Plain;
    var s, k, t := pre + key + rest, |pre|, |pre| + |key|;
    Inside(pre, key, rest);
    ScanPlain(s, k, k, None, div, trim, key);
    assert s[t := NUL] == pre + key + [NUL] + rest[1..];
    ScanMark(s, t, k, None, div, trim, key);
  }

  lemma Inside(a: string, w: string, b: string)
    ensures (a + w + b)[|a|..|a| + |w|] == w
    ensures b != [] ==> (a + w + b)[|a| + |w|] == b[0]
  {
  }

  lemma {:induction false} ScanValued(pre: string, key: string, value: string, rest: string, div: char, trim: bool)
    requires Plain(key, div) && Plain(value, div) && div != '=' && rest != [] && (rest[0] == NUL || rest[0] == div)
    ensures var s, done := pre + key + ("=" + value + rest), pre + key + ([NUL] + value + [NUL] + rest[1..]);
      var u, t := |pre| + |key|, |pre| + |key| + 1 + |value|;
      var p := Pair(|pre| + Spaces(key, trim), Some(u + 1));
      Scan(s, |pre|, |pre|, None, div, trim) ==
      if rest[0] == NUL then Scanned(done, [p]) else Before(p, Scan(done, t + 1, t + 1, None, div, trim))
  {
    hide Scan, Spaces;
    var s, s' := pre + key + ("=" + value + rest), pre + key + ([NUL] + value + rest);
    Inside(pre, key, "=" + value + rest);
    ValueMarks(pre, key, value, rest);
    ScanBothMarks(s, s', |pre|, |pre| + |key|, |pre| + |key| + 1 + |value|, key, value, div, trim);
  }

  /** Both marks of an entry with a value. */
  lemma {:induction false} ScanBothMarks(s: string, s': string, k: nat, u: nat, t: nat, key: string, value: string, div: char, trim: bool)
    requires Plain(key, div) && Plain(value, div) && div != '=' && u == k + |key| && t == u + 1 + |value| < |s|
    requires s[k..u] == key && s[u] == '=' && s' == s[u := NUL] && s'[u + 1..t] == value
    requires s'[k..u] == key && (s'[t] == NUL || s'[t] == div)
    ensures var done, p := s'[t := NUL], Pair(k + Spaces(key, trim), Some(u + 1));
      Scan(s, k, k, None, div, trim) ==
      if s'[t] == NUL then Scanned(done, [p]) else Before(p, Scan(done, t + 1, t + 1, None, div, trim))
  {
    hide Trimmed, Scan, Spaces;
    ScanPlain(s, k, k, None, div, trim, key);
    ScanEquals(s, u, k, None, div, trim);
    ScanPlain(s', u + 1, k, Some(u + 1), div, trim, value);
    ScanMark(s', t, k, Some(u + 1), div, trim, key);
  }

  /** An equals sign on the way. */
  lemma ScanEquals(s: string, t: nat, k: nat, v: Option<nat>, div: char, trim: bool)
    requires k <= t < |s| && s[t] == '=' && div != '='
    ensures Scan(s, t, k, v, div, trim) == Scan(s[t := NUL], t + 1, k, Some(t + 1), div, trim)
  {
  }

  /** The text with one and then both marks of an entry turned into string ends. */
  lemma ValueMarks(pre: string, key: string, value: string, rest: string)
    requires rest != []
    ensures var s, u := pre + key + ("=" + value + rest), |pre| + |key|;
      var s', t := pre + key + ([NUL] + value + rest), u + 1 + |value|;
      && s[u] == '=' && s[u := NUL] == s' && s'[u + 1..t] == value && s'[t] == rest[0]
      && s'[|pre|..u] == key && s'[u] == NUL
      && s'[t := NUL] == pre + key + ([NUL] + value + [NUL] + rest[1..])
  {
  }

  /** One entry, up to its end mark: where the scan is then, and with which key and value. */
  lemma {:induction false} ScanEntry(pre: string, e: Entry, rest: string, div: char, trim: bool)
    requires EntryOk(e, div) && div != '=' && rest != [] && (rest[0] == NUL || rest[0] == div)
    ensures var s, done, t := pre + PrintEntry(e) + rest, pre + MarkEntry(e) + rest[1..], |pre| + |MarkEntry(e)|;
      Scan(s, |pre|, |pre|, None, div, trim) ==
      if rest[0] == NUL then Scanned(done, [OffsetsOf(e, |pre|, trim)])
      else Before(OffsetsOf(e, |pre|, trim), Scan(done, t, t, None, div, trim))
  {
    hide Scan;
    if e.value.Some? {
      var v := e.value.value;
      ScanValued(pre, e.key, v, rest, div, trim);
      assert pre + PrintEntry(e) + rest == pre + e.key + ("=" + v + rest);
      assert pre + MarkEntry(e) + rest[1..] == pre + e.key + ([NUL] + v + [NUL] + rest[1..]);
    } else {
      ScanBare(pre, e.key, rest, div, trim);
      assert pre + PrintEntry(e) + rest == pre + e.key + rest;
      assert pre + MarkEntry(e) + rest[1..] == pre + e.key + [NUL] + rest[1..];
    }
  }

  /** The parser undoes the printer: the marks are cut, the offsets are those of the keys and values. */
  lemma {:induction false} ScanPrinted(pre: string, es: seq<Entry>, div: char, trim: bool)
    requires es != [] && (forall e | e in es :: EntryOk(e, div)) && div != NUL && div != '='
    ensures Scan(pre + PrintEntries(es, div), |pre|, |pre|, None, div, trim) ==
            Scanned(pre + MarkEntries(es), Offsets(es, |pre|, trim))
    decreases |es|
  {
    hide Scan, MarkEntry, PrintEntry, OffsetsOf;
    var e := es[0];
    assert EntryOk(e, div);
    if |es| == 1 {
      ScanEntry(pre, e, [NUL], div, trim);
      assert pre + PrintEntry(e) + [NUL] == pre + PrintEntries(es, div);
      assert pre + MarkEntry(e) + [NUL][1..] == pre + MarkEntries(es);
      assert es[1..] == [];
    } else {
      var rest := [div] + PrintEntries(es[1..], div);
      ScanEntry(pre, e, rest, div, trim);
      assert pre + PrintEntry(e) + rest == pre + PrintEntries(es, div);
      var pre' := pre + MarkEntry(e);
      assert rest[1..] == PrintEntries(es[1..], div);
      assert pre + MarkEntry(e) + rest[1..] == pre' + PrintEntries(es[1..], div);
      ScanPrinted(pre', es[1..], div, trim);
      assert pre' + MarkEntries(es[1..]) == pre + MarkEntries(es);
    }
  }

  /** What the offsets read as: the key without the spaces that were trimmed, and the value. */
  ghost predicate ReadsAs(text: string, p: Pair, e: Entry, trim: bool) {
    && p.key <= |text| && CString(text, p.key) == e.key[Spaces(e.key, trim)..]
    && (p.value.Some? <==> e.value.Some?)
    && (p.value.Some? ==> p.value.value <= |text| && CString(text, p.value.value) == e.value.value)
  }

  lemma {:induction false} WordReads(a: string, w: string, b: string)
    requires NUL !in w && b != [] && b[0] == NUL
    ensures CString(a + w + b, |a|) == w
  {
    Inside(a, w, b);
    CStringIs(a + w + b, |a|, w);
  }

  lemma {:induction false} EntryReads(pre: string, e: Entry, rest: string, div: char, trim: bool)
    requires EntryOk(e, div)
    ensures ReadsAs(pre + MarkEntry(e) + rest, OffsetsOf(e, |pre|, trim), e, trim)
  {
    hide CString;
    var n := Spaces(e.key, trim);
    var valued := if e.value.Some? then [NUL] + e.value.value else [];
    KeyInside(pre, e.key, n, valued, rest);
    assert forall c | c in e.key[n..] :: c in e.key;
    WordReads(pre + e.key[..n], e.key[n..], valued + [NUL] + rest);
    if e.value.Some? {
      ValueInside(pre, e.key, e.value.value, rest);
      WordReads(pre + e.key + [NUL], e.value.value, [NUL] + rest);
    }
  }

  lemma KeyInside(pre: string, key: string, n: nat, valued: string, rest: string)
    requires n <= |key|
    ensures pre + (key + valued + [NUL]) + rest == (pre + key[..n]) + key[n..] + (valued + [NUL] + rest)
    ensures (valued + [NUL] + rest)[0] == if valued == [] then NUL else valued[0]
  {
  }

  lemma ValueInside(pre: string, key: string, value: string, rest: string)
    ensures pre + (key + ([NUL] + value) + [NUL]) + rest == (pre + key + [NUL]) + value + ([NUL] + rest)
  {
  }

  lemma {:induction false} EntriesRead(pre: string, es: seq<Entry>, rest: string, div: char, trim: bool)
    requires es != [] && forall e | e in es :: EntryOk(e, div)
    ensures |Offsets(es, |pre|, trim)| == |es|
    ensures forall i | 0 <= i < |es| :: ReadsAs(pre + MarkEntries(es) + rest, Offsets(es, |pre|, trim)[i], es[i], trim)
    decreases |es|
  {
    hide ReadsAs, MarkEntry, OffsetsOf;
    var text := pre + MarkEntries(es) + rest;
    assert EntryOk(es[0], div);
    var behind := if |es| == 1 then rest else MarkEntries(es[1..]) + rest;
    assert text == pre + MarkEntry(es[0]) + behind;
    EntryReads(pre, es[0], behind, div, trim);
    var pre' := pre + MarkEntry(es[0]);
    var more := Offsets(es[1..], |pre'|, trim);
    assert Offsets(es, |pre|, trim) == [OffsetsOf(es[0], |pre|, trim)] + more;
    if |es| > 1 {
      assert text == pre' + MarkEntries(es[1..]) + rest;
      EntriesRead(pre', es[1..], rest, div, trim);
      forall i | 0 <= i < |es| ensures ReadsAs(text, Offsets(es, |pre|, trim)[i], es[i], trim) {
        if i > 0 { assert Offsets(es, |pre|, trim)[i] == more[i - 1] && es[i] == es[1..][i - 1]; }
      }
    } else {
      assert es[1..] == [];
    }
  }

  /** From end to end: print, parse, read back. */
  lemma {:induction false} ParseUndoesPrint(es: seq<Entry>, div: char, trim: bool)
    requires es != [] && (forall e | e in es :: EntryOk(e, div)) && div != NUL && div != '='
    ensures var r := Scan(PrintEntries(es, div), 0, 0, None, div, trim);
      && |r.pairs| == |es|
      && forall i | 0 <= i < |es| :: ReadsAs(r.text, r.pairs[i], es[i], trim)
  {
    ScanPrinted([], es, div, trim);
    assert [] + PrintEntries(es, div) == PrintEntries(es, div);
    EntriesRead([], es, [], div, trim);
    assert [] + MarkEntries(es) + [] == [] + MarkEntries(es);
  }

  // Any text

  /**
   * A piece between two dividers: its key starts at its first character, or
   * the first that is no space, and its value behind its last equals sign.
   */
  predicate IsPiece(s: string, a: nat, b: nat, div: char, trim: bool, p: Pair)
    requires a <= b < |s|
  {
    && (forall i | a <= i < b :: s[i] != div && s[i] != NUL)
    && a <= p.key <= b
    && (if trim then (forall i | a <= i < p.key :: s[i] == ' ') && (p.key < b ==> s[p.key] != ' ') else p.key == a)
    && Valued(s, a, b, p.value)
  }

  predicate Valued(s: string, a: nat, b: nat, value: Option<nat>)
    requires a <= b <= |s|
  {
    match value
    case None => forall i | a <= i < b :: s[i] != '='
    case Some(v) => a < v <= b && s[v - 1] == '=' && forall i | v <= i < b :: s[i] != '='
  }

  /** The pieces, one behind the other, up to the first string end. */
  predicate ArePieces(s: string, start: nat, ends: seq<nat>, div: char, trim: bool, pairs: seq<Pair>)
    decreases |ends|
  {
    && ends != [] && |pairs| == |ends| && start <= ends[0] < |s| && IsPiece(s, start, ends[0], div, trim, pairs[0])
    && if |ends| == 1 then s[ends[0]] == NUL else s[ends[0]] == div && ArePieces(s, ends[0] + 1, ends[1..], div, trim, pairs[1..])
  }

  /** Dividers and equals signs in front of position `t` are string ends. */
  predicate MarkedUpTo(w: string, s: string, t: nat, div: char) {
    |w| == |s| && forall i | 0 <= i < |s| :: w[i] == if i < t && (s[i] == div || s[i] == '=') then NUL else s[i]
  }

  lemma {:induction false} KeyTrimmed(w: string, s: string, k: nat, t: nat, v: Option<nat>, div: char, trim: bool)
    requires k <= t < |s| && MarkedUpTo(w, s, t, div)
    requires (forall i | k <= i < t :: s[i] != div && s[i] != NUL) && Valued(s, k, t, v)
    ensures IsPiece(s, k, t, div, trim, Pair(Trimmed(w[t := NUL], k, trim), v))
  {
    var key := Trimmed(w[t := NUL], k, trim);
    assert w[t := NUL][t] == NUL;
    if trim {
      forall i | k <= i < key ensures i < t && s[i] == ' ' { assert w[t := NUL][i] == ' '; }
    }
  }

  /** One mark more. */
  lemma MarkStep(w: string, s: string, t: nat, div: char)
    requires t < |s| && MarkedUpTo(w, s, t, div)
    ensures s[t] == div || s[t] == '=' ==> MarkedUpTo(w[t := NUL], s, t + 1, div)
    ensures s[t] != div && s[t] != '=' ==> MarkedUpTo(w, s, t + 1, div)
    ensures |w| == |s| && w[t] == s[t] && (s[t] == NUL ==> w[t := NUL] == w)
  {
  }

  lemma ScanStep(w: string, t: nat, k: nat, v: Option<nat>, div: char, trim: bool)
    requires k <= t < |w| && div !in [NUL, '=']
    ensures w[t] == NUL ==> Scan(w, t, k, v, div, trim) == Scanned(w, [Pair(Trimmed(w, k, trim), v)])
    ensures w[t] == div ==>
      var r := Scan(w[t := NUL], t + 1, t + 1, None, div, trim);
      Scan(w, t, k, v, div, trim) == Scanned(r.text, [Pair(Trimmed(w[t := NUL], k, trim), v)] + r.pairs)
    ensures w[t] == '=' ==> Scan(w, t, k, v, div, trim) == Scan(w[t := NUL], t + 1, k, Some(t + 1), div, trim)
    ensures w[t] !in [NUL, '=', div] ==> Scan(w, t, k, v, div, trim) == Scan(w, t + 1, k, v, div, trim)
  {
    hide Trimmed;
  }

  lemma FirstPiece(s: string, k: nat, t: nat, more: seq<nat>, div: char, trim: bool, p: Pair, pairs: seq<Pair>)
    requires k <= t < |s| && IsPiece(s, k, t, div, trim, p)
    requires if more == [] then s[t] == NUL && pairs == [] else s[t] == div && ArePieces(s, t + 1, more, div, trim, pairs)
    ensures ArePieces(s, k, [t] + more, div, trim, [p] + pairs)
  {
    hide IsPiece;
    assert ([t] + more)[1..] == more && ([p] + pairs)[1..] == pairs;
  }

  /** The scan from the middle of a piece on. */
  lemma {:induction false} ScanFrom(w: string, s: string, t: nat, k: nat, v: Option<nat>, div: char, trim: bool) returns (ends: seq<nat>)
    requires k <= t < |s| && s[|s| - 1] == NUL && MarkedUpTo(w, s, t, div) && div !in [NUL, '=', ' ']
    requires (forall i | k <= i < t :: s[i] != div && s[i] != NUL) && Valued(s, k, t, v)
    ensures var r := Scan(w, t, k, v, div, trim);
      ends != [] && ArePieces(s, k, ends, div, trim, r.pairs) && ends[|ends| - 1] < |s| && MarkedUpTo(r.text, s, ends[|ends| - 1], div)
    decreases |s| - t
  {
    hide IsPiece, Trimmed, Scan, MarkedUpTo, ArePieces;
    MarkStep(w, s, t, div);
    ScanStep(w, t, k, v, div, trim);
    KeyTrimmed(w, s, k, t, v, div, trim);
    if s[t] == NUL {
      ends := [t];
      FirstPiece(s, k, t, [], div, trim, Pair(Trimmed(w, k, trim), v), []);
      assert [t] + [] == [t] && [Pair(Trimmed(w, k, trim), v)] + [] == [Pair(Trimmed(w, k, trim), v)];
    } else if s[t] == div {
      var more := ScanFrom(w[t := NUL], s, t + 1, t + 1, None, div, trim);
      ends := [t] + more;
      FirstPiece(s, k, t, more, div, trim, Pair(Trimmed(w[t := NUL], k, trim), v), Scan(w[t := NUL], t + 1, t + 1, None, div, trim).pairs);
    } else if s[t] == '=' {
      ends := ScanFrom(w[t := NUL], s, t + 1, k, Some(t + 1), div, trim);
    } else {
      ends := ScanFrom(w, s, t + 1, k, v, div, trim);
    }
  }

  /**
   * Whatever the text: the pairs are its pieces between dividers, in order, up
   * to its first string end, and dividers and equals signs there become ends.
   */
  lemma {:induction false} ScanPieces(s: string, div: char, trim: bool) returns (ends: seq<nat>)
    requires s != [] && s[|s| - 1] == NUL && div !in [NUL, '=', ' ']
    ensures var r := Scan(s, 0, 0, None, div, trim);
      ends != [] && ArePieces(s, 0, ends, div, trim, r.pairs) && ends[|ends| - 1] < |s| && MarkedUpTo(r.text, s, ends[|ends| - 1], div)
  {
    hide Scan;
    ends := ScanFrom(s, s, 0, 0, None, div, trim);
  }

  // Looking a key up

  function Lower(c: char): char {
    if 'A' <= c <= 'Z' then c - 'A' + 'a' else c
  }

  /** `strcasecmp` finds no difference. */
  predicate SameFolded(a: string, b: string) {
    |a| == |b| && forall i | 0 <= i < |a| :: Lower(a[i]) == Lower(b[i])
  }

  const UPPER := "ABCDEFGHIJKLMNOPQRSTUVWXYZ"
  const LOWER := "abcdefghijklmnopqrstuvwxyz"

  /** The same character, or the same letter in either case. */
  predicate SameLetter(a: char, b: char) {
    a == b || exists k | 0 <= k < 26 :: (a == UPPER[k] && b == LOWER[k]) || (a == LOWER[k] && b == UPPER[k])
  }

  /** The same but for the case of letters. */
  predicate SameButCase(a: string, b: string) {
    |a| == |b| && forall i | 0 <= i < |a| :: SameLetter(a[i], b[i])
  }

  lemma Letters(k: nat)
    requires k < 26
    ensures UPPER[k] == 'A' + k as char && LOWER[k] == 'a' + k as char
  {
  }

  lemma LetterFolded(a: char, b: char)
    ensures Lower(a) == Lower(b) <==> SameLetter(a, b)
  {
    forall k | 0 <= k < 26 ensures UPPER[k] == 'A' + k as char && LOWER[k] == 'a' + k as char { Letters(k); }
    if a != b && Lower(a) == Lower(b) {
      var k := (Lower(a) - 'a') as nat;
      Letters(k);
    }
  }

  /** `strcasecmp` finds no difference if and only if there is none but for case. */
  lemma {:induction false} FoldedExactly(a: string, b: string)
    ensures SameFolded(a, b) <==> SameButCase(a, b)
  {
    hide Lower, SameLetter;
    if |a| == |b| {
      forall i | 0 <= i < |a| ensures Lower(a[i]) == Lower(b[i]) <==> SameLetter(a[i], b[i]) { LetterFolded(a[i], b[i]); }
    }
  }

  ghost predicate PairsInside(text: string, pairs: seq<Pair>) {
    forall p | p in pairs :: p.key <= |text| && (p.value.Some? ==> p.value.value <= |text|)
  }

  /** The value of the first key that is the same but for case. */
  function Lookup(text: string, pairs: seq<Pair>, key: string, byDefault: Option<string>): Option<string>
    requires forall p | p in pairs :: p.key <= |text| && (p.value.Some? ==> p.value.value <= |text|)
  {
    if pairs == [] then byDefault
    else if SameFolded(key, CString(text, pairs[0].key)) then
      if pairs[0].value.Some? then Some(CString(text, pairs[0].value.value)) else byDefault
    else Lookup(text, pairs[1..], key, byDefault)
  }

  /** The same among entries. */
  function FindEntry(es: seq<Entry>, key: string, byDefault: Option<string>, trim: bool): Option<string> {
    if es == [] then byDefault
    else if SameButCase(key, es[0].key[Spaces(es[0].key, trim)..]) then
      if es[0].value.Some? then es[0].value else byDefault
    else FindEntry(es[1..], key, byDefault, trim)
  }

  /** An entry has the key that is looked for. */
  predicate HasName(e: Entry, key: string, trim: bool) {
    SameButCase(key, e.key[Spaces(e.key, trim)..])
  }

  /** It is the first entry with the key whose value is found; without one, or without a value, it is the default. */
  lemma {:induction false} FirstFound(es: seq<Entry>, key: string, byDefault: Option<string>, trim: bool, i: nat)
    requires i <= |es| && (forall j | 0 <= j < i :: !HasName(es[j], key, trim)) && (i < |es| ==> HasName(es[i], key, trim))
    ensures FindEntry(es, key, byDefault, trim) == if i < |es| && es[i].value.Some? then es[i].value else byDefault
  {
    if i > 0 {
      assert !HasName(es[0], key, trim);
      forall j | 0 <= j < i - 1 ensures !HasName(es[1..][j], key, trim) { assert es[1..][j] == es[j + 1]; }
      FirstFound(es[1..], key, byDefault, trim, i - 1);
    }
  }

  /** Looking up offsets finds what looking up the entries finds. */
  lemma {:induction false} LookupReads(text: string, pairs: seq<Pair>, es: seq<Entry>, key: string, byDefault: Option<string>, trim: bool)
    requires |pairs| == |es| && forall i | 0 <= i < |es| :: ReadsAs(text, pairs[i], es[i], trim)
    ensures PairsInside(text, pairs)
    ensures Lookup(text, pairs, key, byDefault) == FindEntry(es, key, byDefault, trim)
  {
    hide SameFolded, SameButCase, CString, Spaces;
    assert PairsInside(text, pairs);
    if es != [] {
      assert ReadsAs(text, pairs[0], es[0], trim);
      FoldedExactly(key, CString(text, pairs[0].key));
      forall i | 0 <= i < |es[1..]| ensures ReadsAs(text, pairs[1..][i], es[1..][i], trim) {
        assert pairs[1..][i] == pairs[i + 1] && es[1..][i] == es[i + 1];
      }
      LookupReads(text, pairs[1..], es[1..], key, byDefault, trim);
    }
  }

  /** `get_parameter` and `get_cookie`. */
  method GetValue(text: string, pairs: seq<Pair>, key: string, byDefault: Option<string>) returns (value: Option<string>)
    requires PairsInside(text, pairs)
    ensures value == Lookup(text, pairs, key, byDefault)
  {
    var i := 0;
    assert pairs[0..] == pairs;
    while i < |pairs|
      invariant i <= |pairs|
      invariant Lookup(text, pairs[i..], key, byDefault) == Lookup(text, pairs, key, byDefault)
    {
      assert pairs[i] in pairs && pairs[i..][0] == pairs[i] && pairs[i..][1..] == pairs[i + 1..];
      if SameFolded(key, CString(text, pairs[i].key)) {
        return if pairs[i].value.Some? then Some(CString(text, pairs[i].value.value)) else byDefault;
      }
      i := i + 1;
    }
    value := byDefault;
  }

  /** `parse_string` on the filled part of a buffer from `start` on, which a NUL ends. */
  method ParseString(buffer: AutoBuffer<char>, start: nat, size: nat, shift: nat, target: seq<Pair>, div: char, trim: bool)
    returns (pairs: seq<Pair>)
    requires buffer.Valid() && start <= buffer.readyPosition && size >= buffer.readyPosition - start
    requires start < buffer.readyPosition ==> buffer.buffer[buffer.readyPosition - 1] == NUL
    requires start == buffer.readyPosition ==> size == 0
    modifies buffer.buffer
    ensures buffer.Valid() && buffer.buffer[..start] == old(buffer.buffer[..start])
    ensures var r := Scan(old(buffer.Contents()[start..]), 0, 0, None, div, trim);
      buffer.Contents()[start..] == r.text && pairs == target + Shifted(r.pairs, shift)
  {
    hide Trimmed;
    ghost var s := buffer.Contents()[start..];
    ghost var all := Scan(s, 0, 0, None, div, trim);
    pairs := target;
    var k: nat, v: Option<nat>, t: nat := 0, None, 0;
    ghost var found: seq<Pair> := [];
    while t < size
      invariant k <= t <= |s| == buffer.readyPosition - start && s == buffer.Contents()[start..]
      invariant buffer.buffer[..start] == old(buffer.buffer[..start])
      invariant t < size ==> t < |s| && s[|s| - 1] == NUL
      invariant all == Scanned(Scan(s, t, k, v, div, trim).text, found + Scan(s, t, k, v, div, trim).pairs)
      invariant pairs == target + Shifted(found, shift)
    {
      var c := buffer.buffer[start + t];
      assert c == s[t];
      if c == NUL {
        var from := TrimFrom(buffer, start, k, trim, s);
        pairs := pairs + [Moved(Pair(from, v), shift)];
        ShiftedStep(target, found, Pair(from, v), shift);
        return;
      }
      if c == div {
        buffer.buffer[start + t] := NUL;
        s := s[t := NUL];
        var from := TrimFrom(buffer, start, k, trim, s);
        pairs := pairs + [Moved(Pair(from, v), shift)];
        ShiftedStep(target, found, Pair(from, v), shift);
        found := found + [Pair(from, v)];
        t := t + 1;
        k, v := t, None;
      } else if c == '=' {
        buffer.buffer[start + t] := NUL;
        s := s[t := NUL];
        t := t + 1;
        v := Some(t);
      } else {
        t := t + 1;
      }
    }
  }

  lemma ShiftedStep(target: seq<Pair>, found: seq<Pair>, p: Pair, shift: nat)
    ensures (target + Shifted(found, shift)) + [Moved(p, shift)] == target + Shifted(found + [p], shift)
  {
  }

  /** The loop over the leading spaces of a key. */
  method TrimFrom(buffer: AutoBuffer<char>, start: nat, k: nat, trim: bool, ghost s: string) returns (from: nat)
    requires buffer.Valid() && start + k < buffer.readyPosition && s == buffer.Contents()[start..]
    requires s[|s| - 1] == NUL || exists i | k <= i < |s| :: s[i] == NUL
    ensures from == Trimmed(s, k, trim)
  {
    from := k;
    if trim {
      while buffer.buffer[start + from] == ' '
        invariant k <= from < |s| && Trimmed(s, from, trim) == Trimmed(s, k, trim)
        invariant exists i | from <= i < |s| :: s[i] == NUL
        decreases |s| - from
      {
        assert s[from] == ' ';
        from := from + 1;
      }
      assert s[from] != ' ';
    }
  }
}
