/** The cookies of a printed request. */
module HttpCookies {
  import opened HttpText
  import opened HttpMessages
  import opened Options

  /** The `Cookie` fields are printed lists, one after the other in the jar. */
  predicate JarOf(fs: seq<Field>, jar: seq<seq<Entry>>) {
    if fs == [] then jar == []
    else if fs[0].name != "Cookie" then JarOf(fs[1..], jar)
    else
      && jar != [] && jar[0] != [] && fs[0].value + [NUL] == PrintEntries(jar[0], ';')
      && (forall e | e in jar[0] :: EntryOk(e, ';'))
      && JarOf(fs[1..], jar[1..])
  }

  function Poured(jar: seq<seq<Entry>>): seq<Entry> {
    if jar == [] then [] else jar[0] + Poured(jar[1..])
  }

  /** The offsets are inside the text and read as the entries, leading spaces of keys dropped. */
  ghost predicate CookiesRead(text: string, pairs: seq<Pair>, es: seq<Entry>) {
    && |pairs| == |es|
    && forall i | 0 <= i < |es| ::
      && pairs[i].key < |text| && (pairs[i].value.Some? ==> pairs[i].value.value < |text|)
      && ReadsAs(text, pairs[i], es[i], true)
  }

  /** Offsets into a marked list are in front of its last mark. */
  lemma {:induction false} OffsetsInside(es: seq<Entry>, at: nat)
    requires es != []
    ensures |Offsets(es, at, true)| == |es|
    ensures forall p | p in Offsets(es, at, true) ::
      p.key < at + |MarkEntries(es)| && (p.value.Some? ==> p.value.value < at + |MarkEntries(es)|)
  {
    if |es| > 1 { OffsetsInside(es[1..], at + |MarkEntry(es[0])|); }
  }

  lemma {:induction false} ListRead(es: seq<Entry>)
    requires es != [] && forall e | e in es :: EntryOk(e, ';')
    ensures var r := Scan(PrintEntries(es, ';'), 0, 0, None, ';', true); CookiesRead(r.text, r.pairs, es)
  {
    hide Scan, ReadsAs, PrintEntries, MarkEntries, Offsets;
    ParseUndoesPrint(es, ';', true);
    ScanPrinted([], es, ';', true);
    assert [] + PrintEntries(es, ';') == PrintEntries(es, ';') && [] + MarkEntries(es) == MarkEntries(es);
    OffsetsInside(es, 0);
  }

  /** The same text further behind. */
  lemma {:induction false} ReadsBehind(pre: string, text: string, pairs: seq<Pair>, es: seq<Entry>)
    requires CookiesRead(text, pairs, es)
    ensures CookiesRead(pre + text, Shifted(pairs, |pre|), es)
  {
    hide CString;
    forall i | 0 <= i < |es| ensures ReadsAs(pre + text, Shifted(pairs, |pre|)[i], es[i], true) {
      CStringBehind(pre, text, pairs[i].key);
      if pairs[i].value.Some? { CStringBehind(pre, text, pairs[i].value.value); }
    }
  }

  lemma {:induction false} CStringBehind(pre: string, text: string, at: nat)
    requires at <= |text|
    ensures CString(pre + text, |pre| + at) == CString(text, at)
    decreases |text| - at
  {
    if at < |text| {
      assert (pre + text)[|pre| + at] == text[at];
      CStringBehind(pre, text, at + 1);
    }
  }

  /** More text behind a string end changes nothing. */
  lemma {:induction false} ReadsOn(text: string, more: string, pairs: seq<Pair>, es: seq<Entry>)
    requires CookiesRead(text, pairs, es) && text != [] && text[|text| - 1] == NUL
    ensures CookiesRead(text + more, pairs, es)
  {
    hide CString;
    forall i | 0 <= i < |es| ensures ReadsAs(text + more, pairs[i], es[i], true) {
      CStringStays(text, more, pairs[i].key);
      if pairs[i].value.Some? { CStringStays(text, more, pairs[i].value.value); }
    }
  }

  lemma ReadsBoth(text: string, a: seq<Pair>, b: seq<Pair>, es: seq<Entry>, fs: seq<Entry>)
    requires CookiesRead(text, a, es) && CookiesRead(text, b, fs)
    ensures CookiesRead(text, a + b, es + fs)
  {
    hide ReadsAs;
  }

  /** One field more: the cookies in front of it stay, its own are added. */
  lemma {:induction false} AddedCookies(doc: Doc, f: Field, es: seq<Entry>, more: seq<Entry>)
    requires FieldOk(f) && doc.header != [] && doc.header[|doc.header| - 1] == NUL
    requires CookiesRead(doc.header, doc.cookies, es)
    requires if f.name != COOKIE then more == []
             else more != [] && f.value + [NUL] == PrintEntries(more, ';') && forall e | e in more :: EntryOk(e, ';')
    ensures var next := AddPrinted(doc, f);
      && next.header != [] && next.header[|next.header| - 1] == NUL
      && CookiesRead(next.header, next.cookies, es + more)
  {
    hide CookiesRead, AddPrinted, Scan, PrintEntries, EntryOk;
    var next := AddPrinted(doc, f);
    var tail := AddedHeader(doc, f);
    var pre := doc.header + (f.name + [NUL]) + " ";
    assert next.header == doc.header + ((f.name + [NUL]) + (" " + tail));
    assert next.header == pre + tail;
    ReadsOn(doc.header, (f.name + [NUL]) + (" " + tail), doc.cookies, es);
    assert next.header[|next.header| - 1] == tail[|tail| - 1];
    if f.name == COOKIE {
      ListRead(more);
      var r := Scan(f.value + [NUL], 0, 0, None, ';', true);
      ReadsBehind(pre, r.text, r.pairs, more);
      ReadsBoth(next.header, doc.cookies, Shifted(r.pairs, |pre|), es, more);
    } else {
      assert es + more == es;
    }
  }

  lemma {:induction false} AllCookies(doc: Doc, fs: seq<Field>, jar: seq<seq<Entry>>, es: seq<Entry>)
    requires (forall f | f in fs :: FieldOk(f)) && JarOf(fs, jar)
    requires doc.header != [] && doc.header[|doc.header| - 1] == NUL && CookiesRead(doc.header, doc.cookies, es)
    ensures var all := AddAll(doc, fs); CookiesRead(all.header, all.cookies, es + Poured(jar))
    decreases |fs|
  {
    hide CookiesRead, AddPrinted, FieldOk, PrintEntries, EntryOk;
    if fs == [] {
      assert es + Poured(jar) == es;
    } else {
      var more, rest := if fs[0].name == COOKIE then jar[0] else [], if fs[0].name == COOKIE then jar[1..] else jar;
      AddedCookies(doc, fs[0], es, more);
      AllCookies(AddPrinted(doc, fs[0]), fs[1..], rest, es + more);
      assert (es + more) + Poured(rest) == es + Poured(jar);
    }
  }

  /** The cookies of all `Cookie` fields of a printed request read back in order. */
  lemma {:induction false} CookiesUndoPrint(r: Request, jar: seq<seq<Entry>>)
    requires RequestOk(r) && JarOf(r.fields, jar)
    ensures var p := Head(Print(r)); p.Parsed? && CookiesRead(p.doc.header, p.doc.cookies, Poured(jar))
  {
    hide Head, Print, AddAll, JarOf;
    HeadUndoesPrint(r);
    LineReadsBack(r);
    AllCookies(FirstDoc(r), r.fields, jar, []);
    assert [] + Poured(jar) == Poured(jar);
  }
}
