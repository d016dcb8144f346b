/** A request header that arrives in pieces: how far it has been read, and when the pieces make no difference. */
module HttpStages {
  import opened HttpText
  import opened HttpMessages
  import opened Options

  /** The request line as far as it has been read. */
  datatype Line = Line(header: string, params: string, method_: Option<nat>, uri: Option<nat>, version: Option<nat>)

  datatype Stage = InLine(line: Line) | InFields(doc: Doc) | HeadDone(doc: Doc)

  /** How far a text leads: the stage, what is left of the text, and whether the last line ended just where the text does. */
  datatype Progress = Progress(stage: Stage, rest: string, open: bool)

  const NOTHING_READ := InLine(Line("", "", None, None, None))

  function DocOf(l: Line): Doc
    requires l.method_.Some? && l.uri.Some? && l.version.Some?
  {
    Doc(l.header, l.params, l.method_.value, l.uri.value, l.version.value, [], [], NPOS)
  }

  /** One header field: the document with it, and what is left. */
  function FieldOf(doc: Doc, d: string): Option<(Doc, string)> {
    match CutOf(d, ' ', ":")
    case None => None
    case Some(k) =>
      match CutOf(Behind(d, k), ' ', [CR, LF])
      case None => None
      case Some(v) =>
        Some((AddField(doc, Taken(d, k), k.skip, Taken(Behind(d, k), v), v.skip), DropEol(Behind(Behind(d, k), v))))
  }

  /** The field ends just where the text does. */
  predicate FieldOpen(d: string) {
    var k := CutOf(d, ' ', ":");
    k.Some? && var v := CutOf(Behind(d, k.value), ' ', [CR, LF]); v.Some? && Behind(Behind(d, k.value), v.value) == ""
  }

  function FieldsOn(doc: Doc, d: string, open: bool): (p: Progress)
    ensures !p.stage.InLine?
    decreases |d|
  {
    if |d| < 2 then Progress(InFields(doc), d, open && d == "")
    else if d[0] == CR && d[1] == LF then Progress(HeadDone(doc), d[2..], false)
    else
      match FieldOf(doc, d)
      case None => Progress(InFields(doc), d, false)
      case Some(step) => FieldShorter(doc, d); FieldsOn(step.0, step.1, FieldOpen(d))
  }

  lemma FieldShorter(doc: Doc, d: string)
    ensures FieldOf(doc, d).Some? ==> |FieldOf(doc, d).value.1| < |d|
  {
  }

  function VersionOn(l: Line, d: string): Progress
    requires l.method_.Some? && l.uri.Some? && l.version.None?
  {
    match CutOf(d, ' ', [CR, LF])
    case None => Progress(InLine(l), d, false)
    case Some(v) =>
      var next := l.(header := l.header + Taken(d, v), version := Some(|l.header| + v.skip));
      FieldsOn(DocOf(next), DropEol(Behind(d, v)), Behind(d, v) == "")
  }

  function QueryOn(l: Line, d: string): Progress
    requires l.method_.Some? && l.uri.Some? && l.version.None?
  {
    if l.params == "" && d != "" && d[0] == '?' then
      match CutOf(d[1..], '?', " ")
      case None => Progress(InLine(l), d, false)
      case Some(q) => VersionOn(l.(params := Taken(d[1..], q)), Behind(d[1..], q))
    else VersionOn(l, d)
  }

  function PathOn(l: Line, d: string): Progress
    requires l.method_.Some? && l.version.None?
  {
    if l.uri.Some? then QueryOn(l, d)
    else
      match CutOf(d, ' ', "? ")
      case None => Progress(InLine(l), d, false)
      case Some(u) =>
        QueryOn(l.(header := l.header + Taken(d, u), uri := Some(|l.header| + u.skip)), if d[u.end] == '?' then d[u.end..] else Behind(d, u))
  }

  function LineOn(l: Line, d: string): Progress
    requires l.version.None?
  {
    if l.method_.Some? then PathOn(l, d)
    else
      match CutOf(d, ' ', " ")
      case None => Progress(InLine(l), d, false)
      case Some(m) => PathOn(l.(header := l.header + Taken(d, m), method_ := Some(|l.header| + m.skip)), Behind(d, m))
  }

  /** The header read on from where it was left. */
  function HeadOn(s: Stage, d: string): Progress
    requires s.InLine? ==> s.line.version.None?
  {
    match s
    case InLine(l) => LineOn(l, d)
    case InFields(doc) => FieldsOn(doc, d, false)
    case HeadDone(_) => Progress(s, d, false)
  }

  // From the beginning it is what the whole text means

  lemma {:induction false} FieldsAre(doc: Doc, d: string, open: bool)
    ensures var p := FieldsOn(doc, d, open);
      && !p.stage.InLine?
      && Fields(doc, d) == if p.stage.HeadDone? then Parsed(p.stage.doc, p.rest) else Incomplete
    decreases |d|
  {
    hide CutOf, Taken, Behind, DropEol, AddField;
    if |d| >= 2 && !(d[0] == CR && d[1] == LF) {
      var step := FieldOf(doc, d);
      if step.Some? {
        FieldShorter(doc, d);
        FieldsAre(step.value.0, step.value.1, FieldOpen(d));
      }
    }
  }

  lemma {:induction false} HeadIs(d: string)
    ensures var p := HeadOn(NOTHING_READ, d);
      Head(d) == if p.stage.HeadDone? then Parsed(p.stage.doc, p.rest) else Incomplete
  {
    hide CutOf, Taken, Behind, DropEol, FieldsOn, Fields;
    var m := CutOf(d, ' ', " ");
    if m.Some? {
      var d1 := Behind(d, m.value);
      var u := CutOf(d1, ' ', "? ");
      assert "" + Taken(d, m.value) == Taken(d, m.value);
      if u.Some? {
        var l := Line(Taken(d, m.value) + Taken(d1, u.value), "", Some(m.value.skip), Some(|Taken(d, m.value)| + u.value.skip), None);
        var rest := if d1[u.value.end] == '?' then d1[u.value.end..] else Behind(d1, u.value);
        QueryIs(l, rest);
      }
    }
  }

  function HeadFrom(line: Parsed): Parsed {
    match line case Incomplete => Incomplete case Parsed(doc, rest) => Fields(doc, rest)
  }

  lemma {:induction false} VersionIs(l: Line, d: string)
    requires l.method_.Some? && l.uri.Some? && l.version.None?
    ensures var p := VersionOn(l, d);
      HeadFrom(VersionOf(DocOf(l.(version := Some(0))), d)) == if p.stage.HeadDone? then Parsed(p.stage.doc, p.rest) else Incomplete
  {
    hide CutOf, Taken, Behind, DropEol, FieldsOn, Fields;
    var v := CutOf(d, ' ', [CR, LF]);
    if v.Some? {
      var next := l.(header := l.header + Taken(d, v.value), version := Some(|l.header| + v.value.skip));
      FieldsAre(DocOf(next), DropEol(Behind(d, v.value)), Behind(d, v.value) == "");
    }
  }

  lemma {:induction false} QueryIs(l: Line, d: string)
    requires l.method_.Some? && l.uri.Some? && l.version.None? && l.params == ""
    ensures var p := QueryOn(l, d);
      HeadFrom(QueryOf(DocOf(l.(version := Some(0))), d)) == if p.stage.HeadDone? then Parsed(p.stage.doc, p.rest) else Incomplete
  {
    hide CutOf, Taken, Behind, VersionOn, VersionOf;
    if d != "" && d[0] == '?' {
      var q := CutOf(d[1..], '?', " ");
      if q.Some? { VersionIs(l.(params := Taken(d[1..], q.value)), Behind(d[1..], q.value)); }
    } else {
      VersionIs(l, d);
    }
  }

  // Pieces

  lemma EolCut(d: string, b: string)
    ensures d != "" ==> DropEol(d + b) == DropEol(d) + b
    ensures d == "" ==> DropEol(d + b) == DropEol(b) && DropEol(d) == ""
  {
    if d == "" { assert d + b == b; }
  }

  /** The further text with the character dropped that belongs to the line end before. */
  function Joined(open: bool, b: string): string {
    if open then DropEol(b) else b
  }

  lemma {:induction false} FieldCut(doc: Doc, d: string, b: string)
    requires FieldOf(doc, d).Some?
    ensures var step := FieldOf(doc, d).value;
      FieldOf(doc, d + b) == Some((step.0, step.1 + Joined(FieldOpen(d), b)))
    ensures FieldOpen(d) ==> FieldOf(doc, d).value.1 == ""
    ensures b != "" ==> !FieldOpen(d + b)
  {
    hide AddField, CutOf, Taken, Behind, DropEol;
    var k := CutOf(d, ' ', ":").value;
    CutStays(d, b, ' ', ":");
    var v := CutOf(Behind(d, k), ' ', [CR, LF]).value;
    CutStays(Behind(d, k), b, ' ', [CR, LF]);
    var rest := Behind(Behind(d, k), v);
    EolCut(rest, b);
    if rest == "" { assert "" + DropEol(b) == DropEol(b); }
  }

  /** The same stage, and the same left. */
  predicate SameWay(p: Progress, q: Progress) {
    p.stage == q.stage && p.rest == q.rest
  }

  lemma {:induction false} OpenOnly(doc: Doc, d: string, open: bool)
    ensures SameWay(FieldsOn(doc, d, open), FieldsOn(doc, d, false))
    ensures FieldsOn(doc, d, open).open ==> FieldsOn(doc, d, open).rest == "" && FieldsOn(doc, d, open).stage.InFields?
    decreases |d|
  {
    hide FieldOf, FieldOpen;
    if |d| >= 2 && !(d[0] == CR && d[1] == LF) {
      var step := FieldOf(doc, d);
      if step.Some? {
        FieldShorter(doc, d);
        OpenOnly(step.value.0, step.value.1, FieldOpen(d));
      }
    }
  }

  lemma FieldsOnStep(doc: Doc, d: string, open: bool)
    ensures |d| < 2 ==> FieldsOn(doc, d, open) == Progress(InFields(doc), d, open && d == "")
    ensures |d| >= 2 && d[0] == CR && d[1] == LF ==> FieldsOn(doc, d, open) == Progress(HeadDone(doc), d[2..], false)
    ensures |d| >= 2 && !(d[0] == CR && d[1] == LF) ==>
      match FieldOf(doc, d)
      case None => FieldsOn(doc, d, open) == Progress(InFields(doc), d, false)
      case Some(step) => FieldsOn(doc, d, open) == FieldsOn(step.0, step.1, FieldOpen(d))
  {
    hide FieldOf, FieldOpen;
  }

  /** The header fields, cut anywhere. */
  lemma {:induction false} FieldsCut(doc: Doc, d: string, b: string)
    ensures var p := FieldsOn(doc, d, false);
      SameWay(FieldsOn(doc, d + b, false), if p.stage.HeadDone? then Progress(p.stage, p.rest + b, false)
                                           else FieldsOn(p.stage.doc, p.rest + Joined(p.open, b), false))
    decreases |d|
  {
    hide FieldsOn, FieldOf, FieldOpen, Joined;
    FieldsAre(doc, d, false);
    FieldsOnStep(doc, d, false);
    FieldsOnStep(doc, d + b, false);
    NotJoined(b);
    if |d| >= 2 {
      if d[0] == CR && d[1] == LF {
        assert (d + b)[2..] == d[2..] + b;
      } else if FieldOf(doc, d).Some? {
        var step := FieldOf(doc, d).value;
        FieldCut(doc, d, b);
        FieldShorter(doc, d);
        var more := step.1 + Joined(FieldOpen(d), b);
        OpenOnly(step.0, more, FieldOpen(d + b));
        if FieldOpen(d) {
          FieldsOnStep(step.0, "", true);
        } else {
          FieldsCut(step.0, step.1, b);
        }
      }
    }
  }

  lemma NotJoined(b: string)
    ensures Joined(false, b) == b
  {
  }

  lemma {:induction false} VersionCut(l: Line, d: string, b: string)
    requires l.method_.Some? && l.uri.Some? && l.version.None?
    requires l.params != "" || (d != "" && d[0] != '?')
    ensures ComesTo(VersionOn(l, d), VersionOn(l, d + b), b)
  {
    hide FieldsOn, Joined, CutOf, Taken, Behind, DropEol;
    var v := CutOf(d, ' ', [CR, LF]);
    NotJoined(b);
    if v.Some? {
      CutStays(d, b, ' ', [CR, LF]);
      var next := l.(header := l.header + Taken(d, v.value), version := Some(|l.header| + v.value.skip));
      var rest := Behind(d, v.value);
      EolCut(rest, b);
      FieldsAre(DocOf(next), DropEol(rest), rest == "");
      OpenOnly(DocOf(next), DropEol(rest + b), rest + b == "");
      if rest == "" {
        FieldsOnStep(DocOf(next), "", true);
        assert "" + Joined(true, b) == DropEol(b) by { OpenJoined(b); }
      } else {
        FieldsCut(DocOf(next), DropEol(rest), b);
      }
    }
  }

  lemma OpenJoined(b: string)
    ensures "" + Joined(true, b) == DropEol(b)
  {
  }

  /** What the whole comes to is what its second part comes to behind the first. */
  predicate ComesTo(p: Progress, whole: Progress, b: string) {
    && (p.stage.InLine? ==> p.stage.line.version.None? && !p.open)
    && SameWay(whole, if p.stage.HeadDone? then Progress(p.stage, p.rest + b, false) else HeadOn(p.stage, p.rest + Joined(p.open, b)))
  }

  lemma {:induction false} QueryCut(l: Line, d: string, b: string)
    requires l.method_.Some? && l.uri.Some? && l.version.None?
    ensures ComesTo(QueryOn(l, d), QueryOn(l, d + b), b)
  {
    hide VersionOn, Joined, CutOf, Behind, FieldsOn;
    NotJoined(b);
    NothingVersion(l);
    if l.params == "" && d != "" && d[0] == '?' {
      assert (d + b)[1..] == d[1..] + b;
      var q := CutOf(d[1..], '?', " ");
      if q.Some? {
        CutStays(d[1..], b, '?', " ");
        VersionCut(l.(params := Taken(d[1..], q.value)), Behind(d[1..], q.value), b);
      }
    } else if l.params != "" || d != "" {
      VersionCut(l, d, b);
    } else {
      assert d + b == b;
    }
  }

  lemma NothingVersion(l: Line)
    requires l.method_.Some? && l.uri.Some? && l.version.None?
    ensures VersionOn(l, "") == Progress(InLine(l), "", false)
  {
  }

  lemma {:induction false} PathCut(l: Line, d: string, b: string)
    requires l.method_.Some? && l.version.None?
    ensures ComesTo(PathOn(l, d), PathOn(l, d + b), b)
  {
    hide QueryOn, Joined, CutOf, Taken, Behind, FieldsOn;
    NotJoined(b);
    if l.uri.Some? {
      QueryCut(l, d, b);
    } else {
      var u := CutOf(d, ' ', "? ");
      if u.Some? {
        CutStays(d, b, ' ', "? ");
        var next := l.(header := l.header + Taken(d, u.value), uri := Some(|l.header| + u.value.skip));
        QueryCut(next, if d[u.value.end] == '?' then d[u.value.end..] else Behind(d, u.value), b);
      }
    }
  }

  lemma {:induction false} LineCut(l: Line, d: string, b: string)
    requires l.version.None?
    ensures ComesTo(LineOn(l, d), LineOn(l, d + b), b)
  {
    hide PathOn, Joined, CutOf, Taken, Behind, FieldsOn;
    NotJoined(b);
    if l.method_.Some? {
      PathCut(l, d, b);
    } else {
      var m := CutOf(d, ' ', " ");
      if m.Some? {
        CutStays(d, b, ' ', " ");
        PathCut(l.(header := l.header + Taken(d, m.value), method_ := Some(|l.header| + m.value.skip)), Behind(d, m.value), b);
      }
    }
  }

  /**
   * Whatever the text and wherever it is cut: reading on from what was left
   * comes to the same as reading it at once, except that, where a line ended
   * just with the first part, one end-of-line character in front of the second
   * has to be left out.
   */
  lemma {:induction false} HeadCut(s: Stage, d: string, b: string)
    requires s.InLine? ==> s.line.version.None?
    ensures ComesTo(HeadOn(s, d), HeadOn(s, d + b), b)
  {
    hide LineOn, FieldsOn, Joined;
    NotJoined(b);
    match s
    case InLine(l) => LineCut(l, d, b);
    case InFields(doc) => FieldsCut(doc, d, b);
    case HeadDone(_) =>
  }

  // What the offsets read as, whatever else is in the buffer

  /** A string ends within the text. */
  ghost predicate Ends(text: string, at: nat) {
    exists k | at <= k < |text| :: text[k] == NUL
  }

  lemma {:induction false} CStringGrows(text: string, more: string, at: nat)
    requires at <= |text| && Ends(text, at)
    ensures CString(text + more, at) == CString(text, at) && Ends(text + more, at)
    decreases |text| - at
  {
    var k :| at <= k < |text| && text[k] == NUL;
    assert (text + more)[k] == NUL;
    if text[at] != NUL {
      assert Ends(text, at + 1);
      CStringGrows(text, more, at + 1);
    }
  }

  lemma {:induction false} CStringShifted(pre: string, text: string, at: nat)
    requires at <= |text|
    ensures CString(pre + text, |pre| + at) == CString(text, at)
    decreases |text| - at
  {
    if at < |text| {
      assert (pre + text)[|pre| + at] == text[at];
      CStringShifted(pre, text, at + 1);
    }
  }

  lemma EndsShifted(pre: string, text: string, at: nat)
    requires Ends(text, at)
    ensures Ends(pre + text, |pre| + at)
  {
    var k :| at <= k < |text| && text[k] == NUL;
    assert (pre + text)[|pre| + k] == NUL;
  }

  ghost predicate SameAt(s: string, i: nat, t: string, j: nat) {
    i <= |s| && j <= |t| && Ends(s, i) && Ends(t, j) && CString(s, i) == CString(t, j)
  }

  ghost predicate SamePair(s: string, p: Pair, t: string, q: Pair) {
    && SameAt(s, p.key, t, q.key) && (p.value.Some? <==> q.value.Some?)
    && (p.value.Some? ==> SameAt(s, p.value.value, t, q.value.value))
  }

  /** Two documents that read the same at all their offsets. */
  ghost predicate Alike(a: Doc, b: Doc) {
    && SameAt(a.header, a.method_, b.header, b.method_) && SameAt(a.header, a.uri, b.header, b.uri)
    && SameAt(a.header, a.version, b.header, b.version)
    && |a.fields| == |b.fields|
    && (forall i | 0 <= i < |a.fields| ::
          SameAt(a.header, a.fields[i].0, b.header, b.fields[i].0) && SameAt(a.header, a.fields[i].1, b.header, b.fields[i].1))
    && |a.cookies| == |b.cookies| && (forall i | 0 <= i < |a.cookies| :: SamePair(a.header, a.cookies[i], b.header, b.cookies[i]))
    && a.params == b.params && a.length == b.length
  }

  lemma SameGrows(s: string, i: nat, t: string, j: nat, more: string, other: string)
    requires SameAt(s, i, t, j)
    ensures SameAt(s + more, i, t + other, j)
  {
    hide Ends, CString;
    CStringGrows(s, more, i);
    CStringGrows(t, other, j);
  }

  lemma SameShifted(s: string, t: string, text: string, at: nat)
    requires at <= |text| && Ends(text, at)
    ensures SameAt(s + text, |s| + at, t + text, |t| + at)
  {
    hide Ends, CString;
    CStringShifted(s, text, at);
    CStringShifted(t, text, at);
    EndsShifted(s, text, at);
    EndsShifted(t, text, at);
  }

  /** Whatever is put behind either header. */
  lemma {:induction false} AlikeGrows(a: Doc, b: Doc, more: string, other: string)
    requires Alike(a, b)
    ensures Alike(a.(header := a.header + more), b.(header := b.header + other))
  {
    hide SameAt;
    SameGrows(a.header, a.method_, b.header, b.method_, more, other);
    SameGrows(a.header, a.uri, b.header, b.uri, more, other);
    SameGrows(a.header, a.version, b.header, b.version, more, other);
    forall i | 0 <= i < |a.fields|
      ensures SameAt(a.header + more, a.fields[i].0, b.header + other, b.fields[i].0)
      ensures SameAt(a.header + more, a.fields[i].1, b.header + other, b.fields[i].1)
    {
      SameGrows(a.header, a.fields[i].0, b.header, b.fields[i].0, more, other);
      SameGrows(a.header, a.fields[i].1, b.header, b.fields[i].1, more, other);
    }
    forall i | 0 <= i < |a.cookies| ensures SamePair(a.header + more, a.cookies[i], b.header + other, b.cookies[i]) {
      SameGrows(a.header, a.cookies[i].key, b.header, b.cookies[i].key, more, other);
      if a.cookies[i].value.Some? { SameGrows(a.header, a.cookies[i].value.value, b.header, b.cookies[i].value.value, more, other); }
    }
  }

  /** All that a scan finds ends within the text. */
  lemma {:induction false} ScanInside(s: string, div: char, trim: bool)
    requires s != [] && s[|s| - 1] == NUL && div !in [NUL, '=', ' ']
    ensures var r := Scan(s, 0, 0, None, div, trim);
      && |r.text| == |s| && r.text[|s| - 1] == NUL
      && forall i | 0 <= i < |r.pairs| ::
        r.pairs[i].key < |s| && (r.pairs[i].value.Some? ==> r.pairs[i].value.value < |s|)
  {
    hide Scan;
    var ends := ScanPieces(s, div, trim);
    ScanEnds(s, 0, 0, None, div, trim);
    PiecesInside(s, 0, ends, div, trim, Scan(s, 0, 0, None, div, trim).pairs);
  }

  lemma {:induction false} PiecesInside(s: string, start: nat, ends: seq<nat>, div: char, trim: bool, pairs: seq<Pair>)
    requires ArePieces(s, start, ends, div, trim, pairs)
    ensures forall i | 0 <= i < |pairs| :: pairs[i].key < |s| && (pairs[i].value.Some? ==> pairs[i].value.value < |s|)
    decreases |ends|
  {
    if |ends| > 1 {
      PiecesInside(s, ends[0] + 1, ends[1..], div, trim, pairs[1..]);
      forall i | 0 <= i < |pairs| ensures pairs[i].key < |s| && (pairs[i].value.Some? ==> pairs[i].value.value < |s|) {
        if i > 0 { assert pairs[i] == pairs[1..][i - 1]; }
      }
    }
  }

  lemma LastEnds(text: string, at: nat)
    requires at < |text| && text[|text| - 1] == NUL
    ensures Ends(text, at)
  {
  }

  /** What a field adds, apart from where: its text, its cookies, and the length after it. */
  datatype Added = Added(text: string, pairs: seq<Pair>, length: nat)

  function AddedBy(keyText: string, keySkip: nat, valueText: string, valueSkip: nat, length: nat): Added
    requires keySkip <= |keyText| && valueSkip <= |valueText|
  {
    var text := keyText + valueText;
    if length == NPOS && CString(text, keySkip) == CONTENT_LENGTH then
      Added(text, [], ToSize(Atoi(CString(text, |keyText| + valueSkip))))
    else if CString(text, keySkip) == COOKIE then
      var r := Scan(valueText[valueSkip..], 0, 0, None, ';', true);
      Added(keyText + valueText[..valueSkip] + r.text, r.pairs, length)
    else Added(text, [], length)
  }

  lemma {:induction false} AddFieldIs(doc: Doc, keyText: string, keySkip: nat, valueText: string, valueSkip: nat)
    requires keySkip <= |keyText| && valueSkip <= |valueText|
    ensures var a, at := AddedBy(keyText, keySkip, valueText, valueSkip, doc.length), |doc.header| + |keyText| + valueSkip;
      AddField(doc, keyText, keySkip, valueText, valueSkip) ==
      doc.(header := doc.header + a.text, fields := doc.fields + [(|doc.header| + keySkip, at)],
           cookies := doc.cookies + Shifted(a.pairs, at), length := a.length)
  {
    hide CString, Scan, Atoi, ToSize;
    var text, at := keyText + valueText, |doc.header| + |keyText| + valueSkip;
    var header := doc.header + keyText + valueText;
    assert header == doc.header + text && at == |doc.header| + (|keyText| + valueSkip);
    CStringShifted(doc.header, text, keySkip);
    CStringShifted(doc.header, text, |keyText| + valueSkip);
    assert header[at..] == valueText[valueSkip..] && header[..at] == doc.header + keyText + valueText[..valueSkip];
    var r := Scan(valueText[valueSkip..], 0, 0, None, ';', true);
    assert header[..at] + r.text == doc.header + (keyText + valueText[..valueSkip] + r.text);
    assert doc.cookies + Shifted([], at) == doc.cookies;
  }

  /** What is added ends where its offsets need it to. */
  lemma {:induction false} AddedEnds(keyText: string, keySkip: nat, valueText: string, valueSkip: nat, length: nat)
    requires keySkip < |keyText| && valueSkip < |valueText| && keyText[|keyText| - 1] == NUL && valueText[|valueText| - 1] == NUL
    ensures var a, at := AddedBy(keyText, keySkip, valueText, valueSkip, length), |keyText| + valueSkip;
      && |a.text| == |keyText| + |valueText| && a.text[|a.text| - 1] == NUL && Ends(a.text, keySkip) && Ends(a.text, at)
      && forall i | 0 <= i < |a.pairs| ::
        && at + a.pairs[i].key < |a.text| && Ends(a.text, at + a.pairs[i].key)
        && (a.pairs[i].value.Some? ==> at + a.pairs[i].value.value < |a.text| && Ends(a.text, at + a.pairs[i].value.value))
  {
    hide CString, Scan, Atoi, ToSize;
    ScanInside(valueText[valueSkip..], ';', true);
    var a := AddedBy(keyText, keySkip, valueText, valueSkip, length);
    assert a.text[|a.text| - 1] == NUL;
  }

  /** The same field added to documents that read the same. */
  lemma {:induction false} AlikeAdded(a: Doc, b: Doc, keyText: string, keySkip: nat, valueText: string, valueSkip: nat)
    requires Alike(a, b)
    requires keySkip < |keyText| && valueSkip < |valueText| && keyText[|keyText| - 1] == NUL && valueText[|valueText| - 1] == NUL
    ensures Alike(AddField(a, keyText, keySkip, valueText, valueSkip), AddField(b, keyText, keySkip, valueText, valueSkip))
  {
    hide SameAt, AddField, AddedBy, Ends;
    AddFieldIs(a, keyText, keySkip, valueText, valueSkip);
    AddFieldIs(b, keyText, keySkip, valueText, valueSkip);
    AddedEnds(keyText, keySkip, valueText, valueSkip, a.length);
    var more, at := AddedBy(keyText, keySkip, valueText, valueSkip, a.length), |keyText| + valueSkip;
    AlikeGrows(a, b, more.text, more.text);
    SameShifted(a.header, b.header, more.text, keySkip);
    SameShifted(a.header, b.header, more.text, at);
    forall i | 0 <= i < |more.pairs|
      ensures SamePair(a.header + more.text, Moved(more.pairs[i], |a.header| + at), b.header + more.text, Moved(more.pairs[i], |b.header| + at))
    {
      SameShifted(a.header, b.header, more.text, at + more.pairs[i].key);
      if more.pairs[i].value.Some? { SameShifted(a.header, b.header, more.text, at + more.pairs[i].value.value); }
    }
    AlikeJoined(a, b, more, keySkip, at);
  }

  lemma {:induction false} AlikeJoined(a: Doc, b: Doc, more: Added, keySkip: nat, at: nat)
    requires Alike(a.(header := a.header + more.text), b.(header := b.header + more.text))
    requires SameAt(a.header + more.text, |a.header| + keySkip, b.header + more.text, |b.header| + keySkip)
    requires SameAt(a.header + more.text, |a.header| + at, b.header + more.text, |b.header| + at)
    requires forall i | 0 <= i < |more.pairs| ::
      SamePair(a.header + more.text, Moved(more.pairs[i], |a.header| + at), b.header + more.text, Moved(more.pairs[i], |b.header| + at))
    ensures Alike(a.(header := a.header + more.text, fields := a.fields + [(|a.header| + keySkip, |a.header| + at)],
                     cookies := a.cookies + Shifted(more.pairs, |a.header| + at), length := more.length),
                  b.(header := b.header + more.text, fields := b.fields + [(|b.header| + keySkip, |b.header| + at)],
                     cookies := b.cookies + Shifted(more.pairs, |b.header| + at), length := more.length))
  {
    hide SameAt, SamePair;
  }

  // Reading on from stages that read the same

  /** A line whose offsets end. */
  ghost predicate LineEnds(l: Line) {
    && (l.method_.Some? ==> Ends(l.header, l.method_.value)) && (l.uri.Some? ==> Ends(l.header, l.uri.value))
    && (l.version.Some? ==> Ends(l.header, l.version.value))
  }

  ghost predicate AlikeStages(s: Stage, u: Stage) {
    match (s, u)
    case (InLine(l), InLine(m)) => l == m && LineEnds(l)
    case (InFields(a), InFields(b)) => Alike(a, b)
    case (HeadDone(a), HeadDone(b)) => Alike(a, b)
    case _ => false
  }

  lemma {:induction false} FieldsAlike(a: Doc, b: Doc, d: string, open: bool)
    requires Alike(a, b)
    ensures var p, q := FieldsOn(a, d, open), FieldsOn(b, d, open);
      AlikeStages(p.stage, q.stage) && p.rest == q.rest && p.open == q.open
    decreases |d|
  {
    hide Alike, AddField, CutOf, Behind, DropEol, FieldOpen;
    if |d| >= 2 && !(d[0] == CR && d[1] == LF) {
      var k := CutOf(d, ' ', ":");
      if k.Some? {
        var v := CutOf(Behind(d, k.value), ' ', [CR, LF]);
        if v.Some? {
          TakenEnd(d, k.value);
          TakenEnd(Behind(d, k.value), v.value);
          AlikeAdded(a, b, Taken(d, k.value), k.value.skip, Taken(Behind(d, k.value), v.value), v.value.skip);
          FieldShorter(a, d);
          FieldsAlike(FieldOf(a, d).value.0, FieldOf(b, d).value.0, FieldOf(a, d).value.1, FieldOpen(d));
        }
      }
    }
  }

  lemma TakenEnd(d: string, c: Cut)
    requires c.skip <= c.end < |d|
    ensures c.skip < |Taken(d, c)| && Taken(d, c)[|Taken(d, c)| - 1] == NUL
  {
  }

  lemma LineGrows(l: Line, text: string, skip: nat)
    requires LineEnds(l) && skip < |text| && text[|text| - 1] == NUL
    ensures LineEnds(l.(header := l.header + text)) && Ends(l.header + text, |l.header| + skip)
  {
    hide Ends;
    LastEnds(text, skip);
    EndsShifted(l.header, text, skip);
    if l.method_.Some? { EndsGrow(l.header, text, l.method_.value); }
    if l.uri.Some? { EndsGrow(l.header, text, l.uri.value); }
    if l.version.Some? { EndsGrow(l.header, text, l.version.value); }
  }

  lemma EndsGrow(text: string, more: string, at: nat)
    requires Ends(text, at)
    ensures Ends(text + more, at)
  {
    var k :| at <= k < |text| && text[k] == NUL;
    assert (text + more)[k] == NUL;
  }

  lemma {:induction false} VersionAlike(l: Line, d: string)
    requires l.method_.Some? && l.uri.Some? && l.version.None? && LineEnds(l)
    ensures AlikeStages(VersionOn(l, d).stage, VersionOn(l, d).stage)
  {
    hide CutOf, Taken, Behind, DropEol, FieldsOn, LineEnds, Ends;
    var v := CutOf(d, ' ', [CR, LF]);
    if v.Some? {
      TakenEnd(d, v.value);
      LineGrows(l, Taken(d, v.value), v.value.skip);
      var next := l.(header := l.header + Taken(d, v.value), version := Some(|l.header| + v.value.skip));
      LineDoc(next);
      FieldsAlike(DocOf(next), DocOf(next), DropEol(Behind(d, v.value)), Behind(d, v.value) == "");
    }
  }

  lemma LineDoc(l: Line)
    requires l.method_.Some? && l.uri.Some? && l.version.Some?
    requires LineEnds(l.(version := None)) && Ends(l.header, l.version.value)
    ensures Alike(DocOf(l), DocOf(l))
  {
    hide CString;
  }

  lemma {:induction false} QueryAlike(l: Line, d: string)
    requires l.method_.Some? && l.uri.Some? && l.version.None? && LineEnds(l)
    ensures AlikeStages(QueryOn(l, d).stage, QueryOn(l, d).stage)
  {
    hide CutOf, Taken, Behind, VersionOn, Alike;
    if l.params == "" && d != "" && d[0] == '?' {
      var q := CutOf(d[1..], '?', " ");
      if q.Some? { VersionAlike(l.(params := Taken(d[1..], q.value)), Behind(d[1..], q.value)); }
    } else {
      VersionAlike(l, d);
    }
  }

  lemma {:induction false} PathAlike(l: Line, d: string)
    requires l.method_.Some? && l.version.None? && LineEnds(l)
    ensures AlikeStages(PathOn(l, d).stage, PathOn(l, d).stage)
  {
    hide CutOf, Taken, Behind, QueryOn, Alike, Ends;
    if l.uri.Some? {
      QueryAlike(l, d);
    } else {
      var u := CutOf(d, ' ', "? ");
      if u.Some? {
        TakenEnd(d, u.value);
        LineGrows(l, Taken(d, u.value), u.value.skip);
        var next := l.(header := l.header + Taken(d, u.value), uri := Some(|l.header| + u.value.skip));
        QueryAlike(next, if d[u.value.end] == '?' then d[u.value.end..] else Behind(d, u.value));
      }
    }
  }

  lemma {:induction false} LineAlike(l: Line, d: string)
    requires l.version.None? && LineEnds(l)
    ensures AlikeStages(LineOn(l, d).stage, LineOn(l, d).stage)
  {
    hide CutOf, Taken, Behind, PathOn, Alike, Ends;
    if l.method_.Some? {
      PathAlike(l, d);
    } else {
      var m := CutOf(d, ' ', " ");
      if m.Some? {
        TakenEnd(d, m.value);
        LineGrows(l, Taken(d, m.value), m.value.skip);
        PathAlike(l.(header := l.header + Taken(d, m.value), method_ := Some(|l.header| + m.value.skip)), Behind(d, m.value));
      }
    }
  }

  /** Stages that read the same lead to stages that read the same. */
  lemma {:induction false} HeadAlike(s: Stage, u: Stage, d: string)
    requires AlikeStages(s, u) && (s.InLine? ==> s.line.version.None?)
    ensures var p, q := HeadOn(s, d), HeadOn(u, d);
      AlikeStages(p.stage, q.stage) && p.rest == q.rest && p.open == q.open
  {
    hide LineOn, FieldsOn, Alike, LineEnds;
    match s
    case InLine(l) => LineAlike(l, d);
    case InFields(doc) => FieldsAlike(doc, u.doc, d, false);
    case HeadDone(_) =>
  }

  // One piece after the other

  function Concat(pieces: seq<string>): string {
    if pieces == [] then "" else Concat(pieces[..|pieces| - 1]) + pieces[|pieces| - 1]
  }

  lemma ConcatNext(pieces: seq<string>, j: nat)
    requires j < |pieces|
    ensures Concat(pieces[..j + 1]) == Concat(pieces[..j]) + pieces[j] && Concat(pieces[..0]) == ""
  {
    assert pieces[..j + 1][..j] == pieces[..j];
  }

  predicate Eol(b: string) {
    b != "" && (b[0] == CR || b[0] == LF)
  }

  /** No piece goes on in the middle of a line end. */
  predicate CutsOutside(pieces: seq<string>) {
    forall j | 0 <= j < |pieces| :: !(HeadOn(NOTHING_READ, Concat(pieces[..j])).open && Eol(pieces[j]))
  }

  lemma HeadNoVersion(s: Stage, d: string)
    requires s.InLine? ==> s.line.version.None?
    ensures var p := HeadOn(s, d); p.stage.InLine? ==> p.stage.line.version.None?
  {
    hide FieldsOn, CutOf;
  }

  /** A line that ends just where the text does is the last that was read, and its end is the last of the text. */
  lemma {:induction false} HeadOpen(s: Stage, d: string)
    requires s.InLine? ==> s.line.version.None?
    ensures var p := HeadOn(s, d); p.open ==> p.rest == "" && p.stage.InFields?
  {
    hide FieldsOn, CutOf, Taken, Behind, DropEol;
    forall doc, e, open ensures FieldsOn(doc, e, open).open ==> FieldsOn(doc, e, open).rest == "" && FieldsOn(doc, e, open).stage.InFields? {
      OpenOnly(doc, e, open);
    }
  }

  /** One piece more, which begins outside of a line end. */
  lemma {:induction false} NextPiece(text: string, piece: string)
    requires !(HeadOn(NOTHING_READ, text).open && Eol(piece))
    ensures var p := HeadOn(NOTHING_READ, text);
      && (p.stage.InLine? ==> p.stage.line.version.None?)
      && SameWay(HeadOn(NOTHING_READ, text + piece), HeadOn(p.stage, p.rest + piece))
  {
    hide HeadOn, Eol, Joined;
    HeadCut(NOTHING_READ, text, piece);
    var p := HeadOn(NOTHING_READ, text);
    NotDropped(p.open, piece);
    if p.stage.HeadDone? { DoneStays(p.stage, p.rest + piece); }
  }

  lemma NotDropped(open: bool, b: string)
    requires !(open && Eol(b))
    ensures Joined(open, b) == b
  {
  }

  lemma DoneStays(s: Stage, d: string)
    requires s.HeadDone?
    ensures HeadOn(s, d) == Progress(s, d, false)
  {
  }

  /** What has been left behind a header makes no difference. */
  lemma {:induction false} AlikeLeft(s: Stage, u: Stage, header: string)
    requires AlikeStages(s, u) && s.InFields? && s.doc.header <= header
    ensures AlikeStages(InFields(s.doc.(header := header)), u)
  {
    hide Alike;
    var more := header[|s.doc.header|..];
    assert s.doc.header + more == header && u.doc.header + "" == u.doc.header;
    AlikeGrows(s.doc, u.doc, more, "");
    assert u.doc.(header := u.doc.header) == u.doc;
  }

  predicate Suffix(rest: string, d: string) {
    |rest| <= |d| && d[|d| - |rest|..] == rest
  }

  lemma SuffixTwice(a: string, b: string, c: string)
    requires Suffix(a, b) && Suffix(b, c)
    ensures Suffix(a, c)
  {
  }

  lemma BehindSuffix(d: string, c: Cut)
    requires c.end < |d|
    ensures Suffix(Behind(d, c), d) && Suffix(DropEol(Behind(d, c)), d) && Suffix(d[c.end..], d) && Suffix(d, d)
  {
    assert d[|d| - |d|..] == d;
  }

  lemma {:induction false} FieldsSuffix(doc: Doc, d: string, open: bool)
    ensures Suffix(FieldsOn(doc, d, open).rest, d)
    decreases |d|
  {
    hide AddField, CutOf, Suffix, Taken, FieldOpen, Behind, DropEol;
    assert Suffix(d, d) by { Itself(d); }
    FieldsOnStep(doc, d, open);
    if |d| >= 2 && d[0] == CR && d[1] == LF { TwoBehind(d); }
    else if |d| >= 2 && FieldOf(doc, d).Some? {
      var k := CutOf(d, ' ', ":").value;
      var v := CutOf(Behind(d, k), ' ', [CR, LF]).value;
      BehindSuffix(d, k);
      BehindSuffix(Behind(d, k), v);
      var step := FieldOf(doc, d).value;
      FieldShorter(doc, d);
      FieldsSuffix(step.0, step.1, FieldOpen(d));
      SuffixTwice(step.1, Behind(d, k), d);
      SuffixTwice(FieldsOn(step.0, step.1, FieldOpen(d)).rest, step.1, d);
    }
  }

  lemma Itself(d: string)
    ensures Suffix(d, d)
  {
  }

  lemma TwoBehind(d: string)
    requires |d| >= 2
    ensures Suffix(d[2..], d)
  {
  }

  lemma {:induction false} LineSuffix(l: Line, d: string)
    requires l.version.None?
    ensures Suffix(LineOn(l, d).rest, d)
  {
    hide CutOf, Suffix, Taken, Behind, DropEol, FieldsOn, VersionOn;
    Itself(d);
    if l.method_.Some? {
      PathSuffix(l, d);
    } else {
      var m := CutOf(d, ' ', " ");
      if m.Some? {
        BehindSuffix(d, m.value);
        var next := l.(header := l.header + Taken(d, m.value), method_ := Some(|l.header| + m.value.skip));
        PathSuffix(next, Behind(d, m.value));
        SuffixTwice(PathOn(next, Behind(d, m.value)).rest, Behind(d, m.value), d);
      }
    }
  }

  lemma {:induction false} PathSuffix(l: Line, d: string)
    requires l.method_.Some? && l.version.None?
    ensures Suffix(PathOn(l, d).rest, d)
  {
    hide CutOf, Suffix, Taken, Behind, DropEol, FieldsOn, VersionOn, QueryOn;
    Itself(d);
    if l.uri.Some? {
      QuerySuffix(l, d);
    } else {
      var u := CutOf(d, ' ', "? ");
      if u.Some? {
        BehindSuffix(d, u.value);
        var next := l.(header := l.header + Taken(d, u.value), uri := Some(|l.header| + u.value.skip));
        var rest := if d[u.value.end] == '?' then d[u.value.end..] else Behind(d, u.value);
        QuerySuffix(next, rest);
        SuffixTwice(QueryOn(next, rest).rest, rest, d);
      }
    }
  }

  lemma {:induction false} QuerySuffix(l: Line, d: string)
    requires l.method_.Some? && l.uri.Some? && l.version.None?
    ensures Suffix(QueryOn(l, d).rest, d)
  {
    hide CutOf, Suffix, Taken, Behind, DropEol, FieldsOn, VersionOn;
    Itself(d);
    if l.params == "" && d != "" && d[0] == '?' {
      var q := CutOf(d[1..], '?', " ");
      if q.Some? {
        BehindSuffix(d[1..], q.value);
        var next, rest := l.(params := Taken(d[1..], q.value)), Behind(d[1..], q.value);
        VersionSuffix(next, rest);
        SuffixTwice(VersionOn(next, rest).rest, rest, d[1..]);
        OneBehind(d);
        SuffixTwice(VersionOn(next, rest).rest, d[1..], d);
      }
    } else {
      VersionSuffix(l, d);
    }
  }

  lemma OneBehind(d: string)
    requires d != ""
    ensures Suffix(d[1..], d)
  {
  }

  lemma {:induction false} VersionSuffix(l: Line, d: string)
    requires l.method_.Some? && l.uri.Some? && l.version.None?
    ensures Suffix(VersionOn(l, d).rest, d)
  {
    hide CutOf, Suffix, Taken, Behind, DropEol, FieldsOn;
    Itself(d);
    var v := CutOf(d, ' ', [CR, LF]);
    if v.Some? {
      BehindSuffix(d, v.value);
      var next := l.(header := l.header + Taken(d, v.value), version := Some(|l.header| + v.value.skip));
      var rest, open := DropEol(Behind(d, v.value)), Behind(d, v.value) == "";
      FieldsSuffix(DocOf(next), rest, open);
      SuffixTwice(FieldsOn(DocOf(next), rest, open).rest, rest, d);
    }
  }

  /** What is left is the end of what was offered. */
  lemma {:induction false} RestBehind(s: Stage, d: string)
    requires s.InLine? ==> s.line.version.None?
    ensures Suffix(HeadOn(s, d).rest, d)
  {
    hide LineOn, FieldsOn, Suffix;
    Itself(d);
    match s
    case InLine(l) => LineSuffix(l, d);
    case InFields(doc) => FieldsSuffix(doc, d, false);
    case HeadDone(_) =>
  }

  // A cut within a line end

  /** The request comes out with the names of its fields, and its body behind it. */
  ghost predicate NamesRead(p: Progress, r: Request) {
    && p.stage.HeadDone? && p.rest == r.body && |p.stage.doc.fields| == |r.fields|
    && forall i | 0 <= i < |r.fields| ::
      p.stage.doc.fields[i].0 <= |p.stage.doc.header| && CString(p.stage.doc.header, p.stage.doc.fields[i].0) == r.fields[i].name
  }

  /** A field that has been read stays as it is. */
  lemma {:induction false} FieldsKeep(doc: Doc, d: string, open: bool, i: nat)
    requires Alike(doc, doc) && i < |doc.fields|
    ensures var last := FieldsOn(doc, d, open).stage.doc;
      i < |last.fields| && last.fields[i] == doc.fields[i] && SameAt(doc.header, doc.fields[i].0, last.header, doc.fields[i].0)
    decreases |d|
  {
    hide Alike, SameAt, AddField, CutOf, Behind, DropEol, FieldOpen;
    KeptAt(doc, i);
    if |d| >= 2 && !(d[0] == CR && d[1] == LF) {
      var k := CutOf(d, ' ', ":");
      if k.Some? {
        var v := CutOf(Behind(d, k.value), ' ', [CR, LF]);
        if v.Some? {
          TakenEnd(d, k.value);
          TakenEnd(Behind(d, k.value), v.value);
          var keyText, valueText := Taken(d, k.value), Taken(Behind(d, k.value), v.value);
          AlikeAdded(doc, doc, keyText, k.value.skip, valueText, v.value.skip);
          AddFieldIs(doc, keyText, k.value.skip, valueText, v.value.skip);
          var a := AddedBy(keyText, k.value.skip, valueText, v.value.skip, doc.length);
          SameLonger(doc.header, doc.fields[i].0, a.text);
          FieldShorter(doc, d);
          var next := FieldOf(doc, d).value.0;
          FieldsKeep(next, FieldOf(doc, d).value.1, FieldOpen(d), i);
          SameThrice(doc.header, next.header, FieldsOn(doc, d, open).stage.doc.header, doc.fields[i].0);
        }
      }
    }
  }

  lemma KeptAt(doc: Doc, i: nat)
    requires Alike(doc, doc) && i < |doc.fields|
    ensures SameAt(doc.header, doc.fields[i].0, doc.header, doc.fields[i].0)
  {
  }

  lemma SameLonger(s: string, at: nat, more: string)
    requires SameAt(s, at, s, at)
    ensures SameAt(s, at, s + more, at)
  {
    hide Ends, CString;
    CStringGrows(s, more, at);
  }

  lemma SameThrice(s: string, t: string, u: string, at: nat)
    requires SameAt(s, at, t, at) && SameAt(t, at, u, at)
    ensures SameAt(s, at, u, at)
  {
  }

  /** Half a line end in front makes part of a name. */
  lemma {:induction false} BadName(doc: Doc, d: string, r: Request)
    requires Alike(doc, doc) && Eol(d) && !(|d| >= 2 && d[0] == CR && d[1] == LF) && RequestOk(r)
    ensures !NamesRead(FieldsOn(doc, d, false), r)
  {
    hide Alike, AddField, Behind, DropEol, FieldOpen, RequestOk, FieldsOn, Taken;
    FieldsOnStep(doc, d, false);
    var p := FieldsOn(doc, d, false);
    var k := CutOf(d, ' ', ":");
    if |d| >= 2 && k.Some? {
      var v := CutOf(Behind(d, k.value), ' ', [CR, LF]);
      if v.Some? {
        var keyText, valueText := Taken(d, k.value), Taken(Behind(d, k.value), v.value);
        TakenEnd(d, k.value);
        TakenEnd(Behind(d, k.value), v.value);
        AlikeAdded(doc, doc, keyText, k.value.skip, valueText, v.value.skip);
        AddFieldIs(doc, keyText, k.value.skip, valueText, v.value.skip);
        AddedEnds(keyText, k.value.skip, valueText, v.value.skip, doc.length);
        var next, n := FieldOf(doc, d).value.0, |doc.fields|;
        FieldsKeep(next, FieldOf(doc, d).value.1, FieldOpen(d), n);
        NameSeen(doc, d, k.value, valueText, v.value.skip);
        if n < |r.fields| { NamesFree(r, n); }
      }
    }
  }

  lemma NamesFree(r: Request, i: nat)
    requires RequestOk(r) && i < |r.fields|
    ensures r.fields[i].name == "" || (r.fields[i].name[0] != CR && r.fields[i].name[0] != LF)
  {
    assert r.fields[i] in r.fields;
    if r.fields[i].name != "" { assert r.fields[i].name[0] in r.fields[i].name; }
  }

  /** The name begins with what the text begins with. */
  lemma {:induction false} NameSeen(doc: Doc, d: string, k: Cut, valueText: string, valueSkip: nat)
    requires Eol(d) && CutOf(d, ' ', ":") == Some(k) && valueSkip < |valueText| && valueText[|valueText| - 1] == NUL
    ensures k.skip == 0
    ensures var next := AddField(doc, Taken(d, k), k.skip, valueText, valueSkip); var at := |doc.header|;
      at <= |next.header| && |next.fields| == |doc.fields| + 1 && next.fields[|doc.fields|].0 == at
      && CString(next.header, at) != "" && CString(next.header, at)[0] == d[0]
  {
    hide AddField, Scan, Atoi, ToSize;
    TakenEnd(d, k);
    AddFieldIs(doc, Taken(d, k), k.skip, valueText, valueSkip);
    var a := AddedBy(Taken(d, k), k.skip, valueText, valueSkip, doc.length);
    CStringShifted(doc.header, a.text, 0);
    AddedFront(Taken(d, k), k.skip, valueText, valueSkip, doc.length);
    assert Taken(d, k)[0] == d[0];
  }

  lemma AddedFront(keyText: string, keySkip: nat, valueText: string, valueSkip: nat, length: nat)
    requires keySkip < |keyText| && valueSkip <= |valueText|
    ensures var a := AddedBy(keyText, keySkip, valueText, valueSkip, length); a.text != "" && a.text[0] == keyText[0]
  {
    hide Scan, Atoi, ToSize, CString;
  }

  /**
   * A printed request cut in two comes out as printed if and only if it is not
   * cut within the end of its request line or of a header field.
   */
  lemma {:induction false} CutMatters(r: Request, k: nat)
    requires RequestOk(r) && k <= |Print(r)|
    ensures var p, b := HeadOn(NOTHING_READ, Print(r)[..k]), Print(r)[k..];
      && (p.stage.InLine? ==> p.stage.line.version.None?)
      && (NamesRead(HeadOn(p.stage, p.rest + b), r) <==> !(p.open && Eol(b)))
  {
    hide HeadOn, Eol, Joined, Print, RequestOk, AlikeStages, Head, LineReads, LengthOf, AddAll;
    var a, b := Print(r)[..k], Print(r)[k..];
    var p, whole := HeadOn(NOTHING_READ, a), HeadOn(NOTHING_READ, Print(r));
    assert Print(r) == a + b;
    HeadNoVersion(NOTHING_READ, a);
    HeadOpen(NOTHING_READ, a);
    HeadIs(Print(r));
    HeadUndoesPrint(r);
    if p.open && Eol(b) {
      HeadCut(NOTHING_READ, a, b);
      NothingEnds();
      HeadAlike(NOTHING_READ, NOTHING_READ, a);
      StageAlike(p.stage);
      assert p.rest + b == b && p.rest + Joined(true, b) == Joined(true, b);
      EolSplit(b);
      InFieldsOn(p.stage.doc, b);
      InFieldsOn(p.stage.doc, b[1..]);
      if |b| >= 2 && b[0] == CR && b[1] == LF { BadName(p.stage.doc, b[1..], r); }
      BadName(p.stage.doc, b, r);
    } else {
      NextPiece(a, b);
    }
  }

  lemma NothingEnds()
    ensures AlikeStages(NOTHING_READ, NOTHING_READ)
  {
  }

  lemma StageAlike(s: Stage)
    requires AlikeStages(s, s) && !s.InLine?
    ensures Alike(s.doc, s.doc)
  {
  }

  lemma EolSplit(b: string)
    requires Eol(b)
    ensures b != "" && Joined(true, b) == b[1..] && (|b| >= 2 && b[0] == CR && b[1] == LF ==> Eol(b[1..]) && b[1..][0] != CR)
  {
  }

  lemma InFieldsOn(doc: Doc, d: string)
    ensures HeadOn(InFields(doc), d) == FieldsOn(doc, d, false)
  {
  }

  /** There are such cuts: behind the first end-of-line character of a request line. */
  lemma CutWithinEnd()
    ensures HeadOn(NOTHING_READ, "GET / H\r").open
  {
    hide PathOn, QueryOn, CutOf, Taken, Behind;
    CutWord("GET", ' ', "/ H\r", ' ', " ");
    assert "GET" + [' '] + "/ H\r" == "GET / H\r" && "" + ("GET" + [NUL]) == "GET" + [NUL];
    PathWithin(Line("GET" + [NUL], "", Some(0), None, None));
  }

  lemma PathWithin(l: Line)
    requires l.method_.Some? && l.uri.None? && l.version.None?
    ensures PathOn(l, "/ H\r").open
  {
    hide QueryOn, CutOf, Taken, Behind;
    CutWord("/", ' ', "H\r", ' ', "? ");
    assert "/" + [' '] + "H\r" == "/ H\r";
    VersionWithin(l.(header := l.header + ("/" + [NUL]), uri := Some(|l.header|)));
  }

  lemma VersionWithin(l: Line)
    requires l.method_.Some? && l.uri.Some? && l.version.None?
    ensures QueryOn(l, "H\r").open
  {
    hide CutOf, Taken, Behind, FieldsOn;
    CutWord("H", CR, "", ' ', [CR, LF]);
    assert "H" + [CR] + "" == "H\r";
    FieldsOnStep(DocOf(l.(header := l.header + ("H" + [NUL]), version := Some(|l.header|))), "", true);
  }
}
