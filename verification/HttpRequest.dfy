/** HTTP requests as text: what the parser makes of them, and that it undoes a printer. */
module HttpMessages {
  import opened HttpText
  import opened Options

  const CR := '\r'
  const LF := '\n'
  const NPOS := 0xFFFF_FFFF_FFFF_FFFF
  const CONTENT_LENGTH := "Content-Length"
  const CONTENT_TYPE := "Content-Type"
  const COOKIE := "Cookie"
  const FORM := "application/x-www-form-urlencoded"

  // Cutting off one part

  /** A part of the text: it starts behind the leading characters skipped and ends at the stop character. */
  datatype Cut = Cut(skip: nat, end: nat)

  function Skip(d: string, prefix: char): (n: nat)
    ensures n <= |d| && (forall i | 0 <= i < n :: d[i] == prefix) && (n < |d| ==> d[n] != prefix)
  {
    if d != [] && d[0] == prefix then 1 + Skip(d[1..], prefix) else 0
  }

  function StopAt(d: string, k: nat, stops: string): (e: nat)
    requires k <= |d|
    ensures k <= e <= |d| && (forall i | k <= i < e :: d[i] !in stops) && (e < |d| ==> d[e] in stops)
    decreases |d| - k
  {
    if k < |d| && d[k] !in stops then StopAt(d, k + 1, stops) else k
  }

  /** `get_chunk`: nothing unless the stop character is there. */
  function CutOf(d: string, prefix: char, stops: string): (c: Option<Cut>)
    ensures c.Some? ==> c.value.skip <= c.value.end < |d|
  {
    var s := Skip(d, prefix);
    var e := StopAt(d, s, stops);
    if e < |d| then Some(Cut(s, e)) else None
  }

  /** What is kept of a part: all up to the stop character, which becomes the string end. */
  function Taken(d: string, c: Cut): string
    requires c.end < |d|
  {
    d[..c.end] + [NUL]
  }

  function Behind(d: string, c: Cut): string
    requires c.end < |d|
  {
    d[c.end + 1..]
  }

  // The request

  /** What has been read: texts cut by string ends, and offsets into them. */
  datatype Doc = Doc(header: string, params: string, method_: nat, uri: nat, version: nat,
                     fields: seq<(nat, nat)>, cookies: seq<Pair>, length: nat)

  datatype Parsed = Incomplete | Parsed(doc: Doc, rest: string)

  function DropEol(d: string): string {
    if d != [] && (d[0] == CR || d[0] == LF) then d[1..] else d
  }

  /** The version, and the end of its line. */
  function VersionOf(doc: Doc, d: string): Parsed {
    match CutOf(d, ' ', [CR, LF])
    case None => Incomplete
    case Some(v) => Parsed(doc.(header := doc.header + Taken(d, v), version := |doc.header| + v.skip), DropEol(Behind(d, v)))
  }

  /** The query, if the path ended at a question mark. */
  function QueryOf(doc: Doc, d: string): Parsed {
    if d != [] && d[0] == '?' then
      match CutOf(d[1..], '?', " ")
      case None => Incomplete
      case Some(q) => VersionOf(doc.(params := Taken(d[1..], q)), Behind(d[1..], q))
    else VersionOf(doc, d)
  }

  function RequestLine(d: string): Parsed {
    match CutOf(d, ' ', " ")
    case None => Incomplete
    case Some(m) =>
      var d1 := Behind(d, m);
      match CutOf(d1, ' ', "? ")
      case None => Incomplete
      case Some(u) =>
        var doc := Doc(Taken(d, m) + Taken(d1, u), [], m.skip, |Taken(d, m)| + u.skip, 0, [], [], NPOS);
        QueryOf(doc, if d1[u.end] == '?' then d1[u.end..] else Behind(d1, u))
  }

  /** Method and path as they are known so far or read from the text, and the text behind them. */
  datatype Target = Target(header: string, method_: nat, uri: nat, rest: string)

  function TargetOf(header: string, method_: Option<nat>, uri: Option<nat>, d: string): Option<Target> {
    match method_
    case Some(m) => PathOf(header, m, uri, d)
    case None =>
      match CutOf(d, ' ', " ")
      case None => None
      case Some(c) => PathOf(header + Taken(d, c), |header| + c.skip, uri, Behind(d, c))
  }

  /** A question mark behind the path is left for the query. */
  function PathOf(header: string, method_: nat, uri: Option<nat>, d: string): Option<Target> {
    match uri
    case Some(u) => Some(Target(header, method_, u, d))
    case None =>
      match CutOf(d, ' ', "? ")
      case None => None
      case Some(c) => Some(Target(header + Taken(d, c), method_, |header| + c.skip, if d[c.end] == '?' then d[c.end..] else Behind(d, c)))
  }

  /** The text ends right behind the space that ends the path. */
  predicate StopsAtEnd(d: string) {
    var t := TargetOf("", None, None, d);
    t.Some? && t.value.rest == ""
  }

  /** How much is left behind a question mark at the front of the rest; `beyond` is the byte behind the text. */
  function LeftForQuery(d: string, beyond: char): int {
    match TargetOf("", None, None, d)
    case None => |d|
    case Some(t) => |t.rest| - if (t.rest + [beyond])[0] == '?' then 1 else 0
  }

  /** The size of the rest falls below zero if and only if the text stops there and a question mark happens to lie behind it. */
  lemma LeftBelowZero(d: string, beyond: char)
    ensures LeftForQuery(d, beyond) < 0 <==> StopsAtEnd(d) && beyond == '?'
  {
    hide TargetOf;
  }

  lemma StopsShort()
    ensures StopsAtEnd("GET / ") && LeftForQuery("GET / ", '?') < 0
  {
    var d := "GET / ";
    CutWord("GET", ' ', "/ ", ' ', " ");
    assert "GET" + [' '] + "/ " == d;
    CutWord("/", ' ', "", ' ', "? ");
    assert "/" + [' '] + "" == "/ ";
    hide CutOf, Taken, Behind;
    LeftBelowZero(d, '?');
  }

  /** What `isspace` calls blank. */
  const BLANK := [' ', '\t', '\n', '\U{0B}', '\U{0C}', CR]

  function SkipBlank(s: string): (i: nat)
    ensures i <= |s|
  {
    if s != [] && s[0] in BLANK then 1 + SkipBlank(s[1..]) else 0
  }

  function Digits(s: string, n: nat): nat {
    if s != [] && '0' <= s[0] <= '9' then Digits(s[1..], n * 10 + (s[0] - '0') as nat) else n
  }

  type Int = n: int | -0x8000_0000 <= n <= 0x7FFF_FFFF

  // What `atoi` makes of a number that no `int` can hold, which is nowhere laid down.
  const OVERFLOWN: string -> Int

  function Number(s: string): int {
    var d := s[SkipBlank(s)..];
    if d != [] && d[0] == '-' then 0 - Digits(d[1..], 0)
    else if d != [] && d[0] == '+' then Digits(d[1..], 0)
    else Digits(d, 0)
  }

  /** `atoi`. */
  function Atoi(s: string): Int {
    if -0x8000_0000 <= Number(s) <= 0x7FFF_FFFF then Number(s) else OVERFLOWN(s)
  }

  // Numbers as they are printed

  const DIGITS := "0123456789"

  function Decimal(n: nat): (s: string)
    ensures s != []
  {
    if n < 10 then [DIGITS[n]] else Decimal(n / 10) + [DIGITS[n % 10]]
  }

  function Repeated(c: char, n: nat): (s: string)
    ensures |s| == n && forall i | 0 <= i < n :: s[i] == c
  {
    seq(n, _ => c)
  }

  /** The number ends there. */
  predicate NoDigit(rest: string) {
    rest != [] ==> rest[0] !in DIGITS
  }

  lemma DigitRead(k: nat)
    requires k < 10
    ensures '0' <= DIGITS[k] <= '9' && (DIGITS[k] - '0') as nat == k
  {
  }

  lemma NoDigitEnds(rest: string, n: nat)
    requires NoDigit(rest)
    ensures Digits(rest, n) == n
  {
    forall c: char | '0' <= c <= '9' ensures c in DIGITS { assert DIGITS[(c - '0') as nat] == c; }
  }

  /** Reading decimals undoes printing them. */
  lemma {:induction false} DigitsRead(n: nat, rest: string)
    ensures Digits(Decimal(n) + rest, 0) == Digits(rest, n)
    decreases n
  {
    DigitRead(n % 10);
    var last := [DIGITS[n % 10]] + rest;
    assert last[1..] == rest;
    if n < 10 {
      assert Decimal(n) + rest == last;
    } else {
      assert Decimal(n) + rest == Decimal(n / 10) + last;
      DigitsRead(n / 10, last);
    }
  }

  lemma {:induction false} ZerosRead(zeros: nat, rest: string)
    ensures Digits(Repeated('0', zeros) + rest, 0) == Digits(rest, 0)
  {
    if zeros == 0 {
      assert Repeated('0', 0) + rest == rest;
    } else {
      assert (Repeated('0', zeros) + rest)[1..] == Repeated('0', zeros - 1) + rest;
      ZerosRead(zeros - 1, rest);
    }
  }

  lemma {:induction false} BlanksSkipped(blanks: string, rest: string)
    requires (forall c | c in blanks :: c in " \t\n\U{0B}\U{0C}\r") && (rest != [] ==> rest[0] !in " \t\n\U{0B}\U{0C}\r")
    ensures SkipBlank(blanks + rest) == |blanks|
  {
    if blanks == [] {
      assert blanks + rest == rest;
    } else {
      assert blanks[0] in blanks && (blanks + rest)[1..] == blanks[1..] + rest;
      forall c | c in blanks[1..] ensures c in " \t\n\U{0B}\U{0C}\r" { assert c in blanks; }
      BlanksSkipped(blanks[1..], rest);
    }
  }

  /**
   * `atoi` reads the number that is printed in decimals, behind any blanks, a
   * sign and zeros, and in front of anything that is no digit. A text like
   * that without a number is 0.
   */
  lemma {:induction false} AtoiReads(blanks: string, sign: string, zeros: nat, n: nat, rest: string)
    requires (forall c | c in blanks :: c in " \t\n\U{0B}\U{0C}\r") && sign in ["", "+", "-"] && NoDigit(rest)
    ensures n <= 0x7FFF_FFFF && sign != "-" ==> Atoi(blanks + (sign + (Repeated('0', zeros) + (Decimal(n) + rest)))) == n
    ensures n <= 0x8000_0000 && sign == "-" ==> Atoi(blanks + (sign + (Repeated('0', zeros) + (Decimal(n) + rest)))) == 0 - n
    ensures (rest != [] && sign == "" ==> rest[0] !in " \t\n\U{0B}\U{0C}\r+-") ==> Atoi(blanks + (sign + rest)) == 0
  {
    hide Digits, Decimal, SkipBlank;
    var number := Repeated('0', zeros) + (Decimal(n) + rest);
    DigitsRead(n, rest);
    ZerosRead(zeros, Decimal(n) + rest);
    NoDigitEnds(rest, n);
    NoDigitEnds(rest, 0);
    NumberStarts(zeros, n, rest);
    SignedNumber(blanks, sign, number);
    if rest != [] && sign == "" ==> rest[0] !in " \t\n\U{0B}\U{0C}\r+-" { SignedNumber(blanks, sign, rest); }
  }

  lemma {:induction false} NumberStarts(zeros: nat, n: nat, rest: string)
    ensures var number := Repeated('0', zeros) + (Decimal(n) + rest); number != [] && number[0] in DIGITS
    decreases n
  {
    if zeros == 0 {
      if n < 10 {
        assert DIGITS[n] in DIGITS;
      } else {
        NumberStarts(0, n / 10, [DIGITS[n % 10]] + rest);
        assert Decimal(n) + rest == Decimal(n / 10) + ([DIGITS[n % 10]] + rest);
      }
      assert Repeated('0', 0) + (Decimal(n) + rest) == Decimal(n) + rest;
    }
  }

  lemma {:induction false} SignedNumber(blanks: string, sign: string, number: string)
    requires (forall c | c in blanks :: c in " \t\n\U{0B}\U{0C}\r") && sign in ["", "+", "-"]
    requires number != [] && sign == "" ==> number[0] !in " \t\n\U{0B}\U{0C}\r+-"
    ensures Number(blanks + (sign + number)) == if sign == "-" then 0 - Digits(number, 0) else Digits(number, 0)
  {
    hide Digits, SkipBlank;
    BlanksSkipped(blanks, sign + number);
    assert (blanks + (sign + number))[|blanks|..] == sign + number;
    if sign == "" { assert sign + number == number; } else { assert (sign + number)[1..] == number; }
  }

  /** An `int` taken for a `size_t`. */
  function ToSize(n: int): (s: nat)
    ensures 0 <= n <= 0x7FFF_FFFF ==> s == n
    ensures -0x8000_0000 <= n < 0 ==> s == n + 0x1_0000_0000_0000_0000
  {
    n % (NPOS + 1)
  }

  /** One header field: its offsets, and what the parser itself looks at. */
  function AddField(doc: Doc, keyText: string, keySkip: nat, valueText: string, valueSkip: nat): Doc
    requires keySkip <= |keyText| && valueSkip <= |valueText|
  {
    var header := doc.header + keyText + valueText;
    var keyAt, valueAt := |doc.header| + keySkip, |doc.header| + |keyText| + valueSkip;
    var next := doc.(header := header, fields := doc.fields + [(keyAt, valueAt)]);
    if doc.length == NPOS && CString(header, keyAt) == CONTENT_LENGTH then
      next.(length := ToSize(Atoi(CString(header, valueAt))))
    else if CString(header, keyAt) == COOKIE then
      var r := Scan(header[valueAt..], 0, 0, None, ';', true);
      next.(header := header[..valueAt] + r.text, cookies := doc.cookies + Shifted(r.pairs, valueAt))
    else next
  }

  /** The header fields up to the empty line. */
  function Fields(doc: Doc, d: string): Parsed
    decreases |d|
  {
    if |d| < 2 then Incomplete
    else if d[0] == CR && d[1] == LF then Parsed(doc, d[2..])
    else
      match CutOf(d, ' ', ":")
      case None => Incomplete
      case Some(k) =>
        match CutOf(Behind(d, k), ' ', [CR, LF])
        case None => Incomplete
        case Some(v) =>
          Fields(AddField(doc, Taken(d, k), k.skip, Taken(Behind(d, k), v), v.skip), DropEol(Behind(Behind(d, k), v)))
  }

  function Head(d: string): Parsed {
    match RequestLine(d)
    case Incomplete => Incomplete
    case Parsed(doc, rest) => Fields(doc, rest)
  }

  // Printing

  datatype Field = Field(name: string, value: string)

  datatype Request = Request(method_: string, path: string, query: Option<string>, version: string, fields: seq<Field>, body: string)

  function PrintField(f: Field): string {
    f.name + ": " + f.value + [CR, LF]
  }

  function PrintFields(fs: seq<Field>): string {
    if fs == [] then [] else PrintField(fs[0]) + PrintFields(fs[1..])
  }

  function PrintQuery(q: Option<string>): string {
    if q.Some? then "?" + q.value else ""
  }

  function Print(r: Request): string {
    r.method_ + " " + (r.path + PrintQuery(r.query) + " " + (r.version + [CR, LF] + (PrintFields(r.fields) + [CR, LF] + r.body)))
  }

  predicate Free(s: string, chars: string) {
    forall c | c in s :: c !in chars
  }

  predicate NotLed(s: string, c: char) {
    s != [] ==> s[0] != c
  }

  predicate FieldOk(f: Field) {
    Free(f.name, [':', CR, LF, NUL]) && NotLed(f.name, ' ') && Free(f.value, [CR, LF, NUL]) && NotLed(f.value, ' ')
  }

  /** What can be printed without being taken for something else. */
  predicate RequestOk(r: Request) {
    && r.method_ != [] && Free(r.method_, [' ', NUL])
    && Free(r.path, [' ', '?', NUL]) && (r.path == [] ==> r.query.Some?)
    && (r.query.Some? ==> Free(r.query.value, [' ', NUL]))
    && Free(r.version, [CR, LF, NUL]) && NotLed(r.version, ' ') && (r.query.None? ==> NotLed(r.version, '?'))
    && forall f | f in r.fields :: FieldOk(f)
  }

  /** The first field with exactly that name says how long the body is. */
  function LengthOf(fs: seq<Field>): nat {
    if fs == [] then NPOS
    else if fs[0].name == CONTENT_LENGTH && ToSize(Atoi(fs[0].value)) != NPOS then ToSize(Atoi(fs[0].value))
    else LengthOf(fs[1..])
  }

  /** The first field of that name is the printed number. */
  predicate Announces(fs: seq<Field>, n: nat) {
    n <= 0x7FFF_FFFF
    && exists i | 0 <= i < |fs| ::
      fs[i].name == "Content-Length" && fs[i].value == Decimal(n) && forall j | 0 <= j < i :: fs[j].name != "Content-Length"
  }

  predicate AnnouncesNothing(fs: seq<Field>) {
    forall f | f in fs :: f.name != "Content-Length"
  }

  /** The printed number is the length. */
  lemma {:induction false} LengthRead(fs: seq<Field>, n: nat)
    ensures Announces(fs, n) ==> LengthOf(fs) == n <= 0x7FFF_FFFF
    ensures AnnouncesNothing(fs) ==> LengthOf(fs) == NPOS
  {
    hide Decimal, Atoi, ToSize;
    if AnnouncesNothing(fs) {
      if fs != [] {
        forall f | f in fs[1..] ensures f.name != "Content-Length" { assert f in fs; }
        LengthRead(fs[1..], n);
        assert fs[0] in fs;
      }
    } else if Announces(fs, n) {
      var i :| 0 <= i < |fs| && fs[i].name == "Content-Length" && fs[i].value == Decimal(n)
        && forall j | 0 <= j < i :: fs[j].name != "Content-Length";
      if i == 0 {
        PrintedNumber(n);
      } else {
        assert fs[1..][i - 1] == fs[i];
        forall j | 0 <= j < i - 1 ensures fs[1..][j].name != "Content-Length" { assert fs[1..][j] == fs[j + 1]; }
        LengthRead(fs[1..], n);
      }
    }
  }

  lemma PrintedNumber(n: nat)
    requires n <= 0x7FFF_FFFF
    ensures Atoi(Decimal(n)) == n && ToSize(Atoi(Decimal(n))) == n
  {
    hide Decimal, Atoi;
    AtoiReads("", "", 0, n, "");
    assert "" + ("" + (Repeated('0', 0) + (Decimal(n) + ""))) == Decimal(n);
  }

  // Cutting printed text

  lemma {:induction false} StopFound(a: string, c: char, b: string, k: nat, stops: string)
    requires k <= |a| && Free(a, stops) && c in stops
    ensures StopAt(a + [c] + b, k, stops) == |a|
    decreases |a| - k
  {
    var d := a + [c] + b;
    if k < |a| {
      assert d[k] == a[k] && a[k] in a;
      StopFound(a, c, b, k + 1, stops);
    } else {
      assert d[k] == c;
    }
  }

  /** A word without stop characters, not led by the prefix, is cut off whole. */
  lemma {:induction false} CutWord(w: string, c: char, b: string, prefix: char, stops: string)
    requires Free(w, stops) && c in stops && (w + [c])[0] != prefix
    ensures var d := w + [c] + b;
      && CutOf(d, prefix, stops) == Some(Cut(0, |w|))
      && Taken(d, Cut(0, |w|)) == w + [NUL] && Behind(d, Cut(0, |w|)) == b && d[|w|] == c
  {
    var d := w + [c] + b;
    assert d[0] == (w + [c])[0];
    StopFound(w, c, b, 0, stops);
  }

  // Reading back

  /** A string that ends within a text is not changed by what is added behind. */
  lemma {:induction false} CStringStays(s: string, more: string, at: nat)
    requires at < |s| && s[|s| - 1] == NUL
    ensures CString(s + more, at) == CString(s, at)
    decreases |s| - at
  {
    if s[at] != NUL { CStringStays(s, more, at + 1); }
  }

  lemma {:induction false} CStringPart(a: string, w: string, b: string)
    requires NUL !in w
    ensures CString(a + (w + [NUL]) + b, |a|) == w
  {
    assert a + (w + [NUL]) + b == a + w + ([NUL] + b);
    WordReads(a, w, [NUL] + b);
  }

  /** The offsets read as the names and, cookies excepted, as the values, in order. */
  ghost predicate FieldsRead(doc: Doc, fs: seq<Field>) {
    && |doc.fields| == |fs| && doc.header != [] && doc.header[|doc.header| - 1] == NUL
    && forall i | 0 <= i < |fs| ::
      && doc.fields[i].0 < |doc.header| && doc.fields[i].1 < |doc.header|
      && CString(doc.header, doc.fields[i].0) == fs[i].name
      && (fs[i].name != COOKIE ==> CString(doc.header, doc.fields[i].1) == fs[i].value)
  }

  ghost predicate LineReads(doc: Doc, r: Request) {
    && doc.header != [] && doc.header[|doc.header| - 1] == NUL
    && doc.method_ < |doc.header| && doc.uri < |doc.header| && doc.version < |doc.header|
    && CString(doc.header, doc.method_) == r.method_
    && CString(doc.header, doc.uri) == r.path
    && CString(doc.header, doc.version) == r.version
    && doc.params == if r.query.Some? then r.query.value + [NUL] else ""
  }

  /** Whatever is only added behind the header, what has been read stays. */
  lemma {:induction false} ReadingStays(doc: Doc, next: Doc, more: string, r: Request, fs: seq<Field>)
    requires LineReads(doc, r) && FieldsRead(doc, fs)
    requires next.header == doc.header + more && next.params == doc.params
    requires next.method_ == doc.method_ && next.uri == doc.uri && next.version == doc.version
    ensures CString(next.header, next.method_) == r.method_
    ensures CString(next.header, next.uri) == r.path && CString(next.header, next.version) == r.version
    ensures forall i | 0 <= i < |fs| ::
      CString(next.header, doc.fields[i].0) == fs[i].name
      && (fs[i].name != COOKIE ==> CString(next.header, doc.fields[i].1) == fs[i].value)
  {
    CStringStays(doc.header, more, doc.method_);
    CStringStays(doc.header, more, doc.uri);
    CStringStays(doc.header, more, doc.version);
    forall i | 0 <= i < |fs|
      ensures CString(next.header, doc.fields[i].0) == fs[i].name
      ensures fs[i].name != COOKIE ==> CString(next.header, doc.fields[i].1) == fs[i].value
    {
      CStringStays(doc.header, more, doc.fields[i].0);
      CStringStays(doc.header, more, doc.fields[i].1);
    }
  }

  /** A scan up to the end mark keeps it. */
  lemma {:induction false} ScanEnds(s: string, t: nat, k: nat, v: Option<nat>, div: char, trim: bool)
    requires k <= t <= |s| && s != [] && s[|s| - 1] == NUL
    ensures var r := Scan(s, t, k, v, div, trim); r.text != [] && r.text[|s| - 1] == NUL
    decreases |s| - t
  {
    if t < |s| && s[t] != NUL {
      if s[t] == div { ScanEnds(s[t := NUL], t + 1, t + 1, None, div, trim); }
      else if s[t] == '=' { ScanEnds(s[t := NUL], t + 1, k, Some(t + 1), div, trim); }
      else { ScanEnds(s, t + 1, k, v, div, trim); }
    }
  }

  function AddPrinted(doc: Doc, f: Field): Doc {
    AddField(doc, f.name + [NUL], 0, " " + f.value + [NUL], 1)
  }

  /** What the parser sees of a field at its offsets, behind the spaces that are skipped. */
  lemma {:induction false} FieldSeen(header: string, f: Field, lead: nat, gap: nat)
    requires FieldOk(f)
    ensures var keyText, valueText := Repeated(' ', lead) + f.name + [NUL], Repeated(' ', gap) + f.value + [NUL];
      var all, valueAt := header + keyText + valueText, |header| + |keyText| + gap;
      && CString(all, |header| + lead) == f.name && CString(all, valueAt) == f.value
      && all[valueAt..] == f.value + [NUL] && all[..valueAt] == header + keyText + Repeated(' ', gap)
  {
    hide CString;
    var keyText, valueText := Repeated(' ', lead) + f.name + [NUL], Repeated(' ', gap) + f.value + [NUL];
    var all := header + keyText + valueText;
    assert all == (header + Repeated(' ', lead)) + (f.name + [NUL]) + valueText;
    CStringPart(header + Repeated(' ', lead), f.name, valueText);
    assert all == (header + keyText + Repeated(' ', gap)) + (f.value + [NUL]) + [];
    CStringPart(header + keyText + Repeated(' ', gap), f.value, []);
  }

  /** Added with its spaces, a field reads as its name and value; only the first length counts. */
  lemma {:induction false} LooseAdded(doc: Doc, f: Field, lead: nat, gap: nat)
    requires FieldOk(f)
    ensures var keyText, valueText := Repeated(' ', lead) + f.name + [NUL], Repeated(' ', gap) + f.value + [NUL];
      var next := AddField(doc, keyText, lead, valueText, gap);
      && |next.fields| == |doc.fields| + 1 && next.fields[..|doc.fields|] == doc.fields
      && var at := next.fields[|doc.fields|];
      && (f.name != "Cookie" ==>
            && at.0 <= |next.header| && at.1 <= |next.header|
            && CString(next.header, at.0) == f.name && CString(next.header, at.1) == f.value)
      && next.length == if doc.length == NPOS && f.name == "Content-Length" then ToSize(Atoi(f.value)) else doc.length
  {
    hide CString, Scan, ToSize, Atoi;
    FieldSeen(doc.header, f, lead, gap);
  }

  /** The header behind a field added: only the value of a cookie is cut up further. */
  lemma {:induction false} AddedHeader(doc: Doc, f: Field) returns (tail: string)
    requires FieldOk(f)
    ensures tail != [] && tail[|tail| - 1] == NUL && |tail| == |f.value| + 1
    ensures var next := AddPrinted(doc, f);
      && next.header == doc.header + (f.name + [NUL]) + (" " + tail)
      && next.fields == doc.fields + [(|doc.header|, |doc.header| + |f.name| + 2)]
      && (f.name != COOKIE ==> tail == f.value + [NUL] && next.cookies == doc.cookies)
      && (f.name == COOKIE ==>
            var r := Scan(f.value + [NUL], 0, 0, None, ';', true);
            tail == r.text && next.cookies == doc.cookies + Shifted(r.pairs, |doc.header| + |f.name| + 2))
      && next.params == doc.params && next.method_ == doc.method_ && next.uri == doc.uri && next.version == doc.version
      && next.length == (if doc.length == NPOS && f.name == CONTENT_LENGTH then ToSize(Atoi(f.value)) else doc.length)
  {
    hide CString, Scan, ToSize, Atoi, Shifted;
    var keyText := f.name + [NUL];
    FieldSeen(doc.header, f, 0, 1);
    assert Repeated(' ', 0) + f.name + [NUL] == keyText && Repeated(' ', 1) == " ";
    if f.name == COOKIE {
      tail := Scan(f.value + [NUL], 0, 0, None, ';', true).text;
      ScanEnds(f.value + [NUL], 0, 0, None, ';', true);
      assert (doc.header + keyText + " ") + tail == doc.header + keyText + (" " + tail);
    } else {
      tail := f.value + [NUL];
      assert " " + f.value + [NUL] == " " + tail;
    }
  }

  /** One field more has been read. */
  lemma {:induction false} AddedReads(doc: Doc, f: Field, r: Request, fs: seq<Field>)
    requires FieldOk(f) && LineReads(doc, r) && FieldsRead(doc, fs)
    ensures LineReads(AddPrinted(doc, f), r) && FieldsRead(AddPrinted(doc, f), fs + [f])
  {
    hide CString, AddField, ToSize, Atoi;
    var next := AddPrinted(doc, f);
    var tail := AddedHeader(doc, f);
    var more := (f.name + [NUL]) + (" " + tail);
    assert next.header == doc.header + more;
    ReadingStays(doc, next, more, r, fs);
    CStringPart(doc.header, f.name, " " + tail);
    if f.name != COOKIE {
      assert next.header == (doc.header + f.name + [NUL] + " ") + (f.value + [NUL]) + [];
      CStringPart(doc.header + f.name + [NUL] + " ", f.value, []);
    }
    assert next.header[|next.header| - 1] == tail[|tail| - 1];
    forall i | 0 <= i < |fs + [f]|
      ensures next.fields[i].0 < |next.header| && next.fields[i].1 < |next.header|
      ensures CString(next.header, next.fields[i].0) == (fs + [f])[i].name
      ensures (fs + [f])[i].name != COOKIE ==> CString(next.header, next.fields[i].1) == (fs + [f])[i].value
    {
      if i < |fs| { assert next.fields[i] == doc.fields[i] && (fs + [f])[i] == fs[i]; }
    }
  }

  /** One printed line is taken as one field. */
  lemma {:induction false} LineTaken(doc: Doc, f: Field, tail: string)
    requires FieldOk(f)
    ensures Fields(doc, PrintField(f) + tail) == Fields(AddPrinted(doc, f), tail)
  {
    hide AddField, Fields, Free, NotLed;
    LooseLineTaken(doc, f, 0, 1, [CR, LF], tail);
    assert Repeated(' ', 0) == "" && Repeated(' ', 1) == " ";
    assert LooseLine(f, 0, 1, [CR, LF]) == PrintField(f);
    assert "" + f.name + [NUL] == f.name + [NUL];
  }

  /** A field printed with any number of spaces in front of its name and of its value, and any end of line. */
  function LooseLine(f: Field, lead: nat, gap: nat, eol: string): string {
    Repeated(' ', lead) + f.name + ":" + (Repeated(' ', gap) + f.value + eol)
  }

  /** One or two characters end a line; after a single one there is none of them. */
  predicate EndsLine(eol: string, tail: string) {
    && (forall c | c in eol :: c == CR || c == LF)
    && (|eol| == 2 || (|eol| == 1 && tail != "" && tail[0] != CR && tail[0] != LF))
  }

  /** It is taken just the same, its spaces skipped. */
  lemma {:induction false} LooseLineTaken(doc: Doc, f: Field, lead: nat, gap: nat, eol: string, tail: string)
    requires FieldOk(f) && EndsLine(eol, tail)
    ensures Fields(doc, LooseLine(f, lead, gap, eol) + tail) ==
            Fields(AddField(doc, Repeated(' ', lead) + f.name + [NUL], lead, Repeated(' ', gap) + f.value + [NUL], gap), tail)
  {
    hide AddField, CutOf, Taken, Behind, DropEol, Fields, Free, NotLed;
    var d, line := LooseLine(f, lead, gap, eol) + tail, Repeated(' ', gap) + f.value + [eol[0]] + (eol[1..] + tail);
    LoosePrinted(f, lead, gap, eol, tail);
    CutLoose(f.name, lead, ':', line, ":");
    CutLoose(f.value, gap, eol[0], eol[1..] + tail, [CR, LF]);
    FieldsStep(doc, d, Cut(lead, lead + |f.name|), Cut(gap, gap + |f.value|));
    LooseEol(eol, tail);
  }

  lemma LoosePrinted(f: Field, lead: nat, gap: nat, eol: string, tail: string)
    requires FieldOk(f) && EndsLine(eol, tail)
    ensures var d := LooseLine(f, lead, gap, eol) + tail;
      && d == Repeated(' ', lead) + f.name + [':'] + (Repeated(' ', gap) + f.value + [eol[0]] + (eol[1..] + tail))
      && |d| >= 2 && d[0] != CR
    ensures Free(f.name, ":") && Free(f.value, [CR, LF]) && NotLed(f.name, ' ') && NotLed(f.value, ' ') && eol[0] in [CR, LF]
  {
    assert eol == [eol[0]] + eol[1..] && eol[0] in eol;
    if lead == 0 && f.name != [] { assert f.name[0] in f.name; }
  }

  lemma LooseEol(eol: string, tail: string)
    requires EndsLine(eol, tail)
    ensures DropEol(eol[1..] + tail) == tail
  {
    if |eol| == 2 {
      assert eol[1..] == [eol[1]] && eol[1] in eol && ([eol[1]] + tail)[1..] == tail;
    } else {
      assert eol[1..] == [] && [] + tail == tail;
    }
  }

  lemma {:induction false} SkipRepeated(n: nat, c: char, rest: string)
    requires rest != [] && rest[0] != c
    ensures Skip(Repeated(c, n) + rest, c) == n
  {
    if n == 0 {
      assert Repeated(c, 0) + rest == rest;
    } else {
      assert (Repeated(c, n) + rest)[1..] == Repeated(c, n - 1) + rest;
      SkipRepeated(n - 1, c, rest);
    }
  }

  /** A word behind spaces. */
  lemma {:induction false} CutLoose(w: string, n: nat, c: char, b: string, stops: string)
    requires Free(w, stops) && c in stops && c != ' ' && ' ' !in stops && NotLed(w, ' ')
    ensures var d := Repeated(' ', n) + w + [c] + b;
      && CutOf(d, ' ', stops) == Some(Cut(n, n + |w|))
      && Taken(d, Cut(n, n + |w|)) == Repeated(' ', n) + w + [NUL] && Behind(d, Cut(n, n + |w|)) == b
  {
    hide Skip, StopAt;
    var d, spaced := Repeated(' ', n) + w + [c] + b, Repeated(' ', n) + w;
    assert d == Repeated(' ', n) + (w + [c] + b) && (w + [c] + b)[0] == (w + [c])[0];
    SkipRepeated(n, ' ', w + [c] + b);
    forall x | x in spaced ensures x !in stops { if x !in w { assert x in Repeated(' ', n); } }
    StopFound(spaced, c, b, n, stops);
  }

  /** One field, both of whose parts are there. */
  lemma FieldsStep(doc: Doc, d: string, k: Cut, v: Cut)
    requires |d| >= 2 && d[0] != CR && CutOf(d, ' ', ":") == Some(k) && CutOf(Behind(d, k), ' ', [CR, LF]) == Some(v)
    ensures Fields(doc, d) ==
      Fields(AddField(doc, Taken(d, k), k.skip, Taken(Behind(d, k), v), v.skip), DropEol(Behind(Behind(d, k), v)))
  {
    hide AddField, DropEol, CutOf;
  }

  function AddAll(doc: Doc, fs: seq<Field>): Doc
    decreases |fs|
  {
    if fs == [] then doc else AddAll(AddPrinted(doc, fs[0]), fs[1..])
  }

  lemma {:induction false} AllTaken(doc: Doc, fs: seq<Field>, body: string)
    requires forall f | f in fs :: FieldOk(f)
    ensures Fields(doc, PrintFields(fs) + [CR, LF] + body) == Parsed(AddAll(doc, fs), body)
    decreases |fs|
  {
    if fs == [] {
      var d := PrintFields(fs) + [CR, LF] + body;
      assert d == [CR, LF] + body && d[2..] == body;
    } else {
      assert FieldOk(fs[0]);
      var tail := PrintFields(fs[1..]) + [CR, LF] + body;
      assert PrintFields(fs) + [CR, LF] + body == PrintField(fs[0]) + tail;
      LineTaken(doc, fs[0], tail);
      AllTaken(AddPrinted(doc, fs[0]), fs[1..], body);
    }
  }

  lemma {:induction false} AllRead(doc: Doc, fs: seq<Field>, r: Request, done: seq<Field>)
    requires (forall f | f in fs :: FieldOk(f)) && LineReads(doc, r) && FieldsRead(doc, done)
    ensures LineReads(AddAll(doc, fs), r) && FieldsRead(AddAll(doc, fs), done + fs)
    ensures AddAll(doc, fs).length == if doc.length == NPOS then LengthOf(fs) else doc.length
    decreases |fs|
  {
    hide LineReads, FieldsRead, AddField, ToSize, Atoi;
    if fs == [] {
      assert done + fs == done;
    } else {
      assert FieldOk(fs[0]);
      AddedReads(doc, fs[0], r, done);
      var _ := AddedHeader(doc, fs[0]);
      AllRead(AddPrinted(doc, fs[0]), fs[1..], r, done + [fs[0]]);
      assert done + fs == (done + [fs[0]]) + fs[1..];
    }
  }

  function LineDoc(r: Request): Doc {
    Doc((r.method_ + [NUL]) + (r.path + [NUL]), "", 0, |r.method_| + 1, 0, [], [], NPOS)
  }

  /** The document after the request line. */
  function FirstDoc(r: Request): Doc {
    LineDoc(r).(header := LineDoc(r).header + (r.version + [NUL]), version := |LineDoc(r).header|,
                params := if r.query.Some? then r.query.value + [NUL] else "")
  }

  function VersionLine(r: Request, rest: string): string {
    r.version + [CR, LF] + rest
  }

  /** The request line as printed, without and with a query. */
  lemma {:induction false} LineParsed(r: Request, rest: string)
    requires RequestOk(r)
    ensures RequestLine(r.method_ + " " + (r.path + PrintQuery(r.query) + " " + VersionLine(r, rest))) == Parsed(FirstDoc(r), rest)
  {
    hide CutOf, Taken, QueryOf, VersionLine;
    var target := r.path + PrintQuery(r.query) + " " + VersionLine(r, rest);
    assert r.method_[0] in r.method_ && (r.path != [] ==> r.path[0] in r.path);
    CutWord(r.method_, ' ', target, ' ', " ");
    assert r.method_ + [' '] + target == r.method_ + " " + target;
    if r.query.Some? { PathWithQuery(r, rest); } else { PathAlone(r, rest); }
  }

  lemma {:induction false} PathWithQuery(r: Request, rest: string)
    requires RequestOk(r) && r.query.Some?
    ensures var d := r.path + PrintQuery(r.query) + " " + VersionLine(r, rest);
      var u := Cut(0, |r.path|);
      && CutOf(d, ' ', "? ") == Some(u) && Taken(d, u) == r.path + [NUL] && d[u.end] == '?'
      && QueryOf(LineDoc(r), d[u.end..]) == Parsed(FirstDoc(r), rest)
  {
    hide CutOf, Taken, QueryOf, VersionLine;
    var d := r.path + PrintQuery(r.query) + " " + VersionLine(r, rest);
    var behind := r.query.value + [' '] + VersionLine(r, rest);
    assert r.path != [] ==> r.path[0] in r.path;
    assert d == r.path + ['?'] + behind;
    CutWord(r.path, '?', behind, ' ', "? ");
    assert d[|r.path|..] == ['?'] + behind;
    QueryTaken(r, rest);
  }

  lemma {:induction false} PathAlone(r: Request, rest: string)
    requires RequestOk(r) && r.query.None?
    ensures var d := r.path + PrintQuery(r.query) + " " + VersionLine(r, rest);
      var u := Cut(0, |r.path|);
      && CutOf(d, ' ', "? ") == Some(u) && Taken(d, u) == r.path + [NUL] && d[u.end] == ' '
      && QueryOf(LineDoc(r), Behind(d, u)) == Parsed(FirstDoc(r), rest)
  {
    hide CutOf, Taken, QueryOf, VersionLine;
    var d := r.path + PrintQuery(r.query) + " " + VersionLine(r, rest);
    assert r.path != [] ==> r.path[0] in r.path;
    assert d == r.path + [' '] + VersionLine(r, rest);
    CutWord(r.path, ' ', VersionLine(r, rest), ' ', "? ");
    NoQueryTaken(r, rest);
  }

  /** A request as printed goes on behind its path. */
  lemma {:induction false} PrintedGoesOn(r: Request)
    requires RequestOk(r)
    ensures !StopsAtEnd(Print(r))
  {
    hide CutOf, Taken, Behind, VersionLine, QueryOf;
    var rest := PrintFields(r.fields) + [CR, LF] + r.body;
    var target := r.path + PrintQuery(r.query) + " " + VersionLine(r, rest);
    assert r.method_[0] in r.method_;
    CutWord(r.method_, ' ', target, ' ', " ");
    assert Print(r) == r.method_ + [' '] + target by { PrintedTarget(r, rest); }
    if r.query.Some? { PathWithQuery(r, rest); } else { PathGoesOn(r, rest); }
  }

  lemma PrintedTarget(r: Request, rest: string)
    requires rest == PrintFields(r.fields) + [CR, LF] + r.body
    ensures Print(r) == r.method_ + [' '] + (r.path + PrintQuery(r.query) + " " + VersionLine(r, rest))
  {
  }

  lemma PathGoesOn(r: Request, rest: string)
    requires RequestOk(r) && r.query.None?
    ensures var d, u := r.path + PrintQuery(r.query) + " " + VersionLine(r, rest), Cut(0, |r.path|);
      CutOf(d, ' ', "? ") == Some(u) && d[u.end] == ' ' && Behind(d, u) != ""
  {
    hide CutOf, Taken;
    var d := r.path + PrintQuery(r.query) + " " + VersionLine(r, rest);
    assert r.path != [] ==> r.path[0] in r.path;
    assert d == r.path + [' '] + VersionLine(r, rest);
    CutWord(r.path, ' ', VersionLine(r, rest), ' ', "? ");
  }

  lemma {:induction false} QueryTaken(r: Request, rest: string)
    requires RequestOk(r) && r.query.Some?
    ensures QueryOf(LineDoc(r), ['?'] + (r.query.value + [' '] + VersionLine(r, rest))) == Parsed(FirstDoc(r), rest)
  {
    hide CutOf, Taken, VersionOf;
    var behind := r.query.value + [' '] + VersionLine(r, rest);
    assert (['?'] + behind)[1..] == behind;
    CutQuery(r.query.value, VersionLine(r, rest));
    VersionTaken(LineDoc(r).(params := r.query.value + [NUL]), r, rest);
  }

  lemma {:induction false} NoQueryTaken(r: Request, rest: string)
    requires RequestOk(r) && r.query.None?
    ensures QueryOf(LineDoc(r), VersionLine(r, rest)) == Parsed(FirstDoc(r), rest)
  {
    hide CutOf, VersionOf;
    assert VersionLine(r, rest)[0] == (r.version + [CR])[0];
    VersionTaken(LineDoc(r), r, rest);
  }

  lemma {:induction false} SkipWithin(q: string, rest: string, c: char)
    requires rest != [] && rest[0] != c
    ensures Skip(q + rest, c) <= |q|
  {
    if q != [] {
      assert (q + rest)[1..] == q[1..] + rest;
      SkipWithin(q[1..], rest, c);
    }
  }

  /** A query may even begin with question marks. */
  lemma {:induction false} CutQuery(q: string, line: string)
    requires Free(q, [' ', NUL])
    ensures var d, c := q + [' '] + line, Cut(Skip(q + [' '] + line, '?'), |q|);
      CutOf(d, '?', " ") == Some(c) && Taken(d, c) == q + [NUL] && Behind(d, c) == line
  {
    var d := q + [' '] + line;
    assert d == q + ([' '] + line);
    SkipWithin(q, [' '] + line, '?');
    StopFound(q, ' ', line, Skip(d, '?'), " ");
  }

  lemma {:induction false} VersionTaken(doc: Doc, r: Request, rest: string)
    requires RequestOk(r)
    ensures VersionOf(doc, r.version + [CR, LF] + rest) ==
            Parsed(doc.(header := doc.header + (r.version + [NUL]), version := |doc.header|), rest)
  {
    var d := r.version + [CR] + ([LF] + rest);
    assert r.version + [CR, LF] + rest == d;
    CutWord(r.version, CR, [LF] + rest, ' ', [CR, LF]);
  }

  lemma {:induction false} LineReadsBack(r: Request)
    requires RequestOk(r)
    ensures LineReads(FirstDoc(r), r) && FieldsRead(FirstDoc(r), [])
  {
    var doc := FirstDoc(r);
    assert doc.header == [] + (r.method_ + [NUL]) + ((r.path + [NUL]) + (r.version + [NUL]));
    CStringPart([], r.method_, (r.path + [NUL]) + (r.version + [NUL]));
    CStringPart(r.method_ + [NUL], r.path, r.version + [NUL]);
    assert doc.header == LineDoc(r).header + (r.version + [NUL]) + [];
    CStringPart(LineDoc(r).header, r.version, []);
  }

  /**
   * The parser undoes the printer: the offsets found in the buffers read back
   * as the method, the path, the version and the header fields in order, the
   * query is kept whole, and what is left is the body.
   */
  lemma {:induction false} HeadUndoesPrint(r: Request)
    requires RequestOk(r)
    ensures var p := Head(Print(r));
      && p.Parsed? && p.rest == r.body && p.doc == AddAll(FirstDoc(r), r.fields)
      && LineReads(p.doc, r) && FieldsRead(p.doc, r.fields) && p.doc.length == LengthOf(r.fields)
  {
    hide RequestLine, Fields, LineReads, FieldsRead, LengthOf;
    var rest := PrintFields(r.fields) + [CR, LF] + r.body;
    LineParsed(r, rest);
    assert Print(r) == r.method_ + " " + (r.path + PrintQuery(r.query) + " " + VersionLine(r, rest));
    LineReadsBack(r);
    AllTaken(FirstDoc(r), r.fields, r.body);
    AllRead(FirstDoc(r), r.fields, r, []);
    assert [] + r.fields == r.fields;
  }

  // What has been read is not changed by what follows

  lemma {:induction false} CutStays(d: string, more: string, prefix: char, stops: string)
    requires CutOf(d, prefix, stops).Some?
    ensures var c := CutOf(d, prefix, stops).value;
      && CutOf(d + more, prefix, stops) == Some(c)
      && Taken(d + more, c) == Taken(d, c) && Behind(d + more, c) == Behind(d, c) + more && (d + more)[c.end] == d[c.end]
      && (d + more)[c.end..] == d[c.end..] + more
  {
    var c := CutOf(d, prefix, stops).value;
    SkipStays(d, more, prefix);
    StopStays(d, more, c.skip, stops);
  }

  lemma {:induction false} SkipStays(d: string, more: string, prefix: char)
    requires Skip(d, prefix) < |d|
    ensures Skip(d + more, prefix) == Skip(d, prefix)
  {
    if d[0] == prefix {
      assert (d + more)[1..] == d[1..] + more;
      SkipStays(d[1..], more, prefix);
    }
  }

  lemma {:induction false} StopStays(d: string, more: string, k: nat, stops: string)
    requires k <= |d| && StopAt(d, k, stops) < |d|
    ensures StopAt(d + more, k, stops) == StopAt(d, k, stops)
    decreases |d| - k
  {
    if d[k] !in stops { StopStays(d, more, k + 1, stops); }
  }

  lemma EolStays(d: string, more: string)
    requires DropEol(d) != ""
    ensures DropEol(d + more) == DropEol(d) + more
  {
  }

  lemma {:induction false} VersionStays(doc: Doc, d: string, more: string)
    requires VersionOf(doc, d).Parsed? && VersionOf(doc, d).rest != ""
    ensures VersionOf(doc, d + more) == Parsed(VersionOf(doc, d).doc, VersionOf(doc, d).rest + more)
  {
    hide CutOf, Taken, Behind, DropEol;
    CutStays(d, more, ' ', [CR, LF]);
    EolStays(Behind(d, CutOf(d, ' ', [CR, LF]).value), more);
  }

  lemma {:induction false} QueryStays(doc: Doc, d: string, more: string)
    requires QueryOf(doc, d).Parsed? && QueryOf(doc, d).rest != ""
    ensures QueryOf(doc, d + more) == Parsed(QueryOf(doc, d).doc, QueryOf(doc, d).rest + more)
  {
    hide CutOf, Taken, Behind, VersionOf;
    if d == "" {
      NoVersion(doc);
    } else if d[0] == '?' {
      assert (d + more)[1..] == d[1..] + more;
      CutStays(d[1..], more, '?', " ");
      var q := CutOf(d[1..], '?', " ").value;
      VersionStays(doc.(params := Taken(d[1..], q)), Behind(d[1..], q), more);
    } else {
      VersionStays(doc, d, more);
    }
  }

  lemma NoVersion(doc: Doc)
    ensures VersionOf(doc, "") == Incomplete
  {
  }

  lemma {:induction false} LineStays(d: string, more: string)
    requires RequestLine(d).Parsed? && RequestLine(d).rest != ""
    ensures RequestLine(d + more) == Parsed(RequestLine(d).doc, RequestLine(d).rest + more)
  {
    hide CutOf, Taken, Behind, QueryOf;
    CutStays(d, more, ' ', " ");
    var m := CutOf(d, ' ', " ").value;
    var d1 := Behind(d, m);
    CutStays(d1, more, ' ', "? ");
    var u := CutOf(d1, ' ', "? ").value;
    var doc := Doc(Taken(d, m) + Taken(d1, u), [], m.skip, |Taken(d, m)| + u.skip, 0, [], [], NPOS);
    QueryStays(doc, if d1[u.end] == '?' then d1[u.end..] else Behind(d1, u), more);
  }

  lemma {:induction false} FieldsStay(doc: Doc, d: string, more: string)
    requires Fields(doc, d).Parsed?
    ensures Fields(doc, d + more) == Parsed(Fields(doc, d).doc, Fields(doc, d).rest + more)
    decreases |d|
  {
    hide CutOf, Behind, DropEol, AddField;
    if d[0] == CR && d[1] == LF {
      assert (d + more)[2..] == d[2..] + more;
    } else {
      CutStays(d, more, ' ', ":");
      var k := CutOf(d, ' ', ":").value;
      CutStays(Behind(d, k), more, ' ', [CR, LF]);
      var v := CutOf(Behind(d, k), ' ', [CR, LF]).value;
      var rest := Behind(Behind(d, k), v);
      var next := AddField(doc, Taken(d, k), k.skip, Taken(Behind(d, k), v), v.skip);
      Shorter(d, k, v);
      EolStays(rest, more);
      FieldsStay(next, DropEol(rest), more);
    }
  }

  lemma Shorter(d: string, k: Cut, v: Cut)
    requires k.end < |d| && v.end < |Behind(d, k)|
    ensures |DropEol(Behind(Behind(d, k), v))| < |d|
  {
  }

  /** A header that has been read stays as it is, and what follows it is left behind it. */
  lemma {:induction false} HeadStays(d: string, more: string)
    requires Head(d).Parsed?
    ensures Head(d + more) == Parsed(Head(d).doc, Head(d).rest + more)
  {
    hide RequestLine, Fields;
    var line := RequestLine(d);
    FieldsNeed(line.doc, line.rest);
    LineStays(d, more);
    FieldsStay(line.doc, line.rest, more);
  }

  lemma FieldsNeed(doc: Doc, d: string)
    ensures Fields(doc, d).Parsed? ==> d != ""
  {
  }

  /** No part of a printed header is taken for all of it. */
  lemma {:induction false} PartIncomplete(r: Request, k: nat)
    requires RequestOk(r) && r.body == "" && k < |Print(r)|
    ensures Head(Print(r)[..k]) == Incomplete
  {
    hide Head, Print;
    var d := Print(r);
    HeadUndoesPrint(r);
    if Head(d[..k]).Parsed? {
      assert d == d[..k] + d[k..];
      HeadStays(d[..k], d[k..]);
    }
  }
}
