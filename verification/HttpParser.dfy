/** The request parser in memory: offsets into growing buffers. */
module HttpParsing {
  import opened AutoBuffers
  import opened HttpText
  import opened HttpCookies
  import opened HttpMessages
  import opened HttpStages
  import opened Options

  datatype Phase = NoPhase | First | Next | Successful | Error

  /** `find_sub_value` as a test: the text occurs outside of quotes. */
  function FindSub(s: string, m: string, inQuote: bool): bool {
    if |s| < |m| || s == [] then false
    else if s[0] == '"' then FindSub(s[1..], m, !inQuote)
    else if !inQuote && s[..|m|] == m then true
    else FindSub(s[1..], m, inQuote)
  }

  function Quotes(s: string): nat {
    multiset(s)['"']
  }

  predicate StandsAt(s: string, m: string, inQuote: bool, k: nat) {
    k + |m| <= |s| && s[k..k + |m|] == m && (Quotes(s[..k]) % 2 == 1 <==> inQuote)
  }

  /** The text stands somewhere outside of quotes. */
  predicate OutsideQuotes(s: string, m: string, inQuote: bool) {
    exists k | 0 <= k < |s| :: StandsAt(s, m, inQuote, k)
  }

  lemma StandsBehind(s: string, m: string, inQuote: bool, k: nat)
    requires s != []
    ensures StandsAt(s, m, inQuote, k + 1) <==> StandsAt(s[1..], m, inQuote != (s[0] == '"'), k)
  {
    hide Quotes;
    if k + 1 + |m| <= |s| {
      assert s[k + 1..k + 1 + |m|] == s[1..][k..k + |m|];
      QuotesStep(s, k);
    }
  }

  lemma StandsHere(s: string, m: string, inQuote: bool)
    ensures StandsAt(s, m, inQuote, 0) <==> |m| <= |s| && s[..|m|] == m && !inQuote
  {
    assert s[..0] == [] && Quotes([]) == 0;
    if |m| <= |s| { assert s[0..0 + |m|] == s[..|m|]; }
  }

  lemma QuotesStep(s: string, k: nat)
    requires k + 1 <= |s|
    ensures Quotes(s[..k + 1]) == Quotes(s[1..][..k]) + if s[0] == '"' then 1 else 0
  {
    assert s[..k + 1] == [s[0]] + s[1..][..k];
  }

  /** That is what is found, unless it is a quote itself that it begins with. */
  lemma {:induction false} FindSubExactly(s: string, m: string, inQuote: bool)
    requires m != [] && m[0] != '"'
    ensures FindSub(s, m, inQuote) <==> OutsideQuotes(s, m, inQuote)
  {
    hide StandsAt;
    forall k: nat | k + |m| > |s| ensures !StandsAt(s, m, inQuote, k) { NoRoom(s, m, inQuote, k); }
    if |s| >= |m| {
      var here, rest := s[0] == '"', s[1..];
      FindSubExactly(rest, m, inQuote != here);
      StandsHere(s, m, inQuote);
      assert here ==> s[..|m|] != m by { if here { assert s[..|m|][0] == s[0]; } }
      if OutsideQuotes(rest, m, inQuote != here) {
        var k :| 0 <= k < |rest| && StandsAt(rest, m, inQuote != here, k);
        StandsBehind(s, m, inQuote, k);
      }
      if OutsideQuotes(s, m, inQuote) {
        var k :| 0 <= k < |s| && StandsAt(s, m, inQuote, k);
        if k > 0 { StandsBehind(s, m, inQuote, k - 1); }
      }
    }
  }

  lemma NoRoom(s: string, m: string, inQuote: bool, k: nat)
    requires k + |m| > |s|
    ensures !StandsAt(s, m, inQuote, k)
  {
  }

  method FindSubValue(source: string, match_: string) returns (found: bool)
    requires match_ != []
    ensures found == FindSub(source, match_, false)
  {
    if |source| < |match_| { return false; }
    var inQuote, check := false, 0;
    assert source[0..] == source;
    while check <= |source| - |match_|
      invariant check <= |source| - |match_| + 1
      invariant FindSub(source[check..], match_, inQuote) == FindSub(source, match_, false)
    {
      assert source[check..][1..] == source[check + 1..] && source[check..][..|match_|] == source[check..check + |match_|];
      if source[check] == '"' {
        inQuote := !inQuote;
      } else if !inQuote && source[check..check + |match_|] == match_ {
        return true;
      }
      check := check + 1;
    }
    return false;
  }

  /** The value of the first header field whose name is the same but for case. */
  function HeaderValue(header: string, fields: seq<(nat, nat)>, key: string): Option<string>
    requires forall f | f in fields :: f.0 <= |header| && f.1 <= |header|
  {
    if fields == [] then None
    else if SameFolded(key, CString(header, fields[0].0)) then Some(CString(header, fields[0].1))
    else HeaderValue(header, fields[1..], key)
  }

  /** The body is a form. */
  function IsForm(header: string, fields: seq<(nat, nat)>): bool
    requires forall f | f in fields :: f.0 <= |header| && f.1 <= |header|
  {
    var v := HeaderValue(header, fields, CONTENT_TYPE);
    v.Some? && FindSub(v.value, FORM, false)
  }

  /** A form put behind the parameters of the query. */
  function Merged(params: string, body: string): string {
    var k := |params|;
    (if k == 0 then ""
     else if params[k - 1] == NUL then
       if k > 1 && params[k - 2] != '&' then params[k - 1 := '&'] else params[..k - 1]
     else if params[k - 1] != '&' then params + "&"
     else params) + body + [NUL]
  }

  method MergeForm(params: AutoBuffer<char>, body: string) returns (added: nat)
    requires params.Valid()
    modifies params, params.buffer
    ensures params.Valid() && params.Contents() == Merged(old(params.Contents()), body)
    ensures added + |body| + 1 == |params.Contents()|
    ensures params.buffer == old(params.buffer) || fresh(params.buffer)
  {
    var k := params.readyPosition;
    ghost var was := params.Contents();
    if k != 0 {
      assert params.buffer[k - 1] == was[k - 1];
      if params.buffer[k - 1] == NUL {
        assert k > 1 ==> params.buffer[k - 2] == was[k - 2];
        if k > 1 && params.buffer[k - 2] != '&' {
          params.buffer[k - 1] := '&';
        } else {
          params.IncrementFreeSize(1);
        }
      } else if params.buffer[k - 1] != '&' {
        params.Append("&");
      }
    }
    ghost var head := params.Contents();
    added := params.readyPosition;
    params.Append(body);
    params.Append([NUL]);
    assert head + body + [NUL] == Merged(was, body);
  }

  /** What one call makes of the body: how many bytes it takes, and whether they are all there then. */
  datatype Portion = Portion(taken: nat, done: bool)

  /** So many are offered when there are `had` already: never more are taken than were announced in all. */
  function PortionOf(length: nat, had: nat, offered: nat): (r: Portion)
    ensures r.taken <= offered
  {
    if length == NPOS || (offered == 0 && length == 0) then Portion(0, true)
    else
      var taken := if offered < length then offered else length;
      Portion(taken, taken > 0 && had + taken >= length)
  }

  /** The parameters after it: once all is there, a form is put behind those of the query. */
  function ParamsThen(header: string, fields: seq<(nat, nat)>, params: string, body: string, r: Portion): string
    requires forall f | f in fields :: f.0 <= |header| && f.1 <= |header|
  {
    if r.done && r.taken > 0 && IsForm(header, fields) then Merged(params, body) else params
  }

  /** The length that is kept; the parameters in front of a form are counted in. */
  function LengthThen(header: string, fields: seq<(nat, nat)>, params: string, body: string, length: nat, r: Portion): int
    requires forall f | f in fields :: f.0 <= |header| && f.1 <= |header|
  {
    if r.done && r.taken == 0 then 0
    else if r.done && IsForm(header, fields) then length + |ParamsThen(header, fields, params, body, r)| - |body| - 1
    else length
  }

  ghost predicate FieldsInside(doc: Doc) {
    forall f | f in doc.fields :: f.0 <= |doc.header| && f.1 <= |doc.header|
  }

  /** How much of what follows the header belongs to the body. */
  function BodySize(doc: Doc, rest: string): (n: nat)
    ensures n <= |rest|
  {
    PortionOf(doc.length, 0, |rest|).taken
  }

  /** Without a length there is no body; an empty one needs an empty rest. */
  predicate BodyDone(doc: Doc, rest: string) {
    PortionOf(doc.length, 0, |rest|).done
  }

  function ParamsWith(doc: Doc, rest: string): string
    requires FieldsInside(doc)
  {
    ParamsThen(doc.header, doc.fields, doc.params, rest[..BodySize(doc, rest)], PortionOf(doc.length, 0, |rest|))
  }

  function LengthAfter(doc: Doc, rest: string): int
    requires FieldsInside(doc)
  {
    LengthThen(doc.header, doc.fields, doc.params, rest[..BodySize(doc, rest)], doc.length, PortionOf(doc.length, 0, |rest|))
  }

  /** `http_text_protocol_header`, the part that parses requests. */
  class RequestParser {
    const abHeader: AutoBuffer<char>
    const abParams: AutoBuffer<char>
    const abBody: AutoBuffer<char>
    var queryMethod: Option<nat>
    var queryUri: Option<nat>
    var queryVersion: Option<nat>
    var headerValues: seq<(nat, nat)>
    var paramsValue: seq<Pair>
    var cookies: seq<Pair>
    var headerProcess: Phase
    var bodyProcess: Phase
    var contentLength: nat

    ghost function Repr(): set<object>
      reads this, abHeader, abParams, abBody
    {
      {this, abHeader, abParams, abBody, abHeader.buffer, abParams.buffer, abBody.buffer}
    }

    ghost predicate Valid()
      reads this, abHeader, abParams, abBody, abHeader.buffer, abParams.buffer, abBody.buffer
    {
      && abHeader != abParams && abHeader != abBody && abParams != abBody
      && abHeader.buffer != abParams.buffer && abHeader.buffer != abBody.buffer && abParams.buffer != abBody.buffer
      && abHeader.Valid() && abParams.Valid() && abBody.Valid()
      && (forall f | f in headerValues :: f.0 <= abHeader.readyPosition && f.1 <= abHeader.readyPosition)
      && (abParams.readyPosition > 0 ==> abParams.buffer[abParams.readyPosition - 1] == NUL)
    }

    /** As after `clear`. */
    ghost predicate Cleared()
      reads this, abHeader, abParams, abBody
    {
      && abHeader.readyPosition == 0 && abParams.readyPosition == 0 && abBody.readyPosition == 0
      && queryMethod.None? && queryUri.None? && queryVersion.None?
      && headerValues == [] && paramsValue == [] && cookies == []
      && headerProcess == First && bodyProcess == NoPhase && contentLength == NPOS
    }

    constructor ()
      ensures Valid() && Cleared() && fresh(Repr())
    {
      abHeader := new AutoBuffer<char>();
      abParams := new AutoBuffer<char>();
      abBody := new AutoBuffer<char>();
      queryMethod, queryUri, queryVersion := None, None, None;
      headerValues, paramsValue, cookies := [], [], [];
      headerProcess, bodyProcess := First, NoPhase;
      contentLength := NPOS;
    }

    method Clear()
      requires Valid()
      modifies Repr()
      ensures Valid() && Cleared() && Repr() == old(Repr())
    {
      hide AutoBuffer.Valid;
      queryMethod, queryUri, queryVersion := None, None, None;
      headerProcess, bodyProcess := First, NoPhase;
      headerValues, paramsValue, cookies := [], [], [];
      FlushBuffers();
      contentLength := NPOS;
    }

    method FlushBuffers()
      requires abHeader != abParams && abHeader != abBody && abParams != abBody
      requires abHeader.Valid() && abParams.Valid() && abBody.Valid()
      modifies abHeader`readyPosition, abParams`readyPosition, abBody`readyPosition
      ensures abHeader.Valid() && abParams.Valid() && abBody.Valid()
      ensures abHeader.readyPosition == abParams.readyPosition == abBody.readyPosition == 0
    {
      abHeader.FlushFreeSize();
      abParams.FlushFreeSize();
      abBody.FlushFreeSize();
    }

    predicate IsReady()
      reads this
    {
      headerProcess == Successful && bodyProcess == Successful
    }

    /** What has been read so far is `doc`. */
    ghost predicate Shows(doc: Doc)
      requires Valid()
      reads this, abHeader, abParams, abBody, abHeader.buffer, abParams.buffer, abBody.buffer
    {
      && abHeader.Contents() == doc.header && abParams.Contents() == doc.params
      && queryMethod == Some(doc.method_) && queryUri == Some(doc.uri) && queryVersion == Some(doc.version)
      && headerValues == doc.fields && cookies == doc.cookies && contentLength == doc.length
    }

    ghost function LineOf(): Line
      requires Valid()
      reads this, abHeader, abParams, abBody, abHeader.buffer, abParams.buffer, abBody.buffer
    {
      Line(abHeader.Contents(), abParams.Contents(), queryMethod, queryUri, queryVersion)
    }

    /** What has been read so far is `doc`, with something left behind its header. */
    ghost predicate ShowsMore(doc: Doc)
      requires Valid()
      reads this, abHeader, abParams, abBody, abHeader.buffer, abParams.buffer, abBody.buffer
    {
      doc.header <= abHeader.Contents() && Shows(doc.(header := abHeader.Contents()))
    }

    /** The header is being read, and nothing of the body yet. */
    ghost predicate InHeader()
      reads this, abHeader, abParams, abBody
    {
      && abBody.readyPosition == 0 && paramsValue == [] && bodyProcess == NoPhase
      && if headerProcess == First then queryVersion.None? && headerValues == [] && cookies == [] && contentLength == NPOS
         else headerProcess == Next && queryMethod.Some? && queryUri.Some? && queryVersion.Some?
    }

    /** How far it has been read. */
    ghost function Standing(): (s: Stage)
      requires Valid() && InHeader()
      reads this, abHeader, abParams, abBody, abHeader.buffer, abParams.buffer, abBody.buffer
      ensures s.InLine? ==> s.line.version.None?
    {
      if headerProcess == First then InLine(LineOf())
      else InFields(Doc(abHeader.Contents(), abParams.Contents(), queryMethod.value, queryUri.value, queryVersion.value,
                        headerValues, cookies, contentLength))
    }

    /** The parser is where the text has led. */
    ghost predicate CameTo(s: Stage)
      requires Valid()
      reads this, abHeader, abParams, abBody, abHeader.buffer, abParams.buffer, abBody.buffer
    {
      match s
      case InLine(l) => InHeader() && headerProcess == First && LineOf() == l
      case InFields(doc) => InHeader() && headerProcess == Next && ShowsMore(doc)
      case HeadDone(doc) =>
        Shows(doc) && headerProcess == Successful && bodyProcess == First && abBody.readyPosition == 0 && paramsValue == []
    }

    /** The body and the results are not touched yet. */
    twostate predicate Kept()
      reads this, abHeader, abParams, abBody
    {
      && (abHeader.buffer == old(abHeader.buffer) || fresh(abHeader.buffer))
      && (abParams.buffer == old(abParams.buffer) || fresh(abParams.buffer))
      && abBody.buffer == old(abBody.buffer) && abBody.readyPosition == old(abBody.readyPosition)
      && bodyProcess == old(bodyProcess) && paramsValue == old(paramsValue)
    }

    /** `get_chunk` into the header buffer; the rest stays as it is. */
    method HeaderChunk(buffer: string, p: nat, stops: string, before: nat) returns (found: bool, reference: nat, chunkSize: nat)
      requires Valid() && p <= |buffer|
      modifies abHeader, abHeader.buffer
      ensures Valid() && Kept()
      ensures found <==> CutOf(buffer[p..], ' ', stops).Some?
      ensures !found ==> chunkSize == before && abHeader.Contents() == old(abHeader.Contents())
      ensures found ==>
        var c := CutOf(buffer[p..], ' ', stops).value;
        && abHeader.Contents() == old(abHeader.Contents()) + Taken(buffer[p..], c)
        && reference == |old(abHeader.Contents())| + c.skip && chunkSize == c.end + 1 && p + chunkSize <= |buffer|
        && buffer[p + chunkSize..] == Behind(buffer[p..], c)
        && buffer[p + chunkSize - 1] == buffer[p..][c.end] && buffer[p + chunkSize - 1..] == buffer[p..][c.end..]
    {
      hide CutOf;
      found, reference, chunkSize := GetChunk(buffer, p, ' ', stops, abHeader, before);
    }

    /** The method. */
    method ReadMethod(buffer: string, before: nat) returns (p: nat, chunkSize: nat, complete: bool)
      requires Valid()
      modifies this`queryMethod, abHeader, abHeader.buffer
      ensures Valid() && Kept() && p <= |buffer| && queryUri == old(queryUri)
      ensures complete ==> queryMethod.Some?
      ensures old(queryMethod).Some? ==>
        complete && p == 0 && abHeader.Contents() == old(abHeader.Contents()) && queryMethod == old(queryMethod)
      ensures old(queryMethod).None? ==>
        match CutOf(buffer, ' ', " ")
        case None => !complete && p == 0 && abHeader.Contents() == old(abHeader.Contents()) && queryMethod == old(queryMethod)
        case Some(m) =>
          complete && abHeader.Contents() == old(abHeader.Contents()) + Taken(buffer, m)
          && queryMethod == Some(|old(abHeader.Contents())| + m.skip) && buffer[p..] == Behind(buffer, m)
    {
      hide CutOf, Taken;
      p, chunkSize, complete := 0, before, false;
      assert buffer[0..] == buffer;
      if queryMethod.None? {
        var found, reference;
        found, reference, chunkSize := HeaderChunk(buffer, p, " ", chunkSize);
        if !found { return; }
        queryMethod := Some(reference);
        p := p + chunkSize;
      }
      complete := true;
    }

    /** The path, up to a space or a question mark, which is left for the query. */
    method ReadPath(buffer: string, start: nat, before: nat) returns (p: nat, chunkSize: nat, complete: bool)
      requires Valid() && start <= |buffer|
      modifies this`queryUri, abHeader, abHeader.buffer
      ensures Valid() && Kept() && start <= p <= |buffer|
      ensures complete ==> queryUri.Some?
      ensures old(queryUri).Some? ==>
        complete && p == start && abHeader.Contents() == old(abHeader.Contents()) && queryUri == old(queryUri)
      ensures old(queryUri).None? ==>
        match CutOf(buffer[start..], ' ', "? ")
        case None => !complete && p == start && abHeader.Contents() == old(abHeader.Contents()) && queryUri == old(queryUri)
        case Some(u) =>
          complete && abHeader.Contents() == old(abHeader.Contents()) + Taken(buffer[start..], u)
          && queryUri == Some(|old(abHeader.Contents())| + u.skip)
          && buffer[p..] == if buffer[start..][u.end] == '?' then buffer[start..][u.end..] else Behind(buffer[start..], u)
    {
      hide CutOf, Taken;
      p, chunkSize, complete := start, before, false;
      if queryUri.None? {
        var found, reference;
        found, reference, chunkSize := HeaderChunk(buffer, p, "? ", chunkSize);
        if !found { return; }
        queryUri := Some(reference);
        p := p + chunkSize;
        if buffer[p - 1] == '?' {
          p, chunkSize := p - 1, chunkSize - 1;
        }
      }
      complete := true;
    }

    /** Method and path, as far as they have not been read yet. */
    method ReadTarget(buffer: string, before: nat) returns (p: nat, chunkSize: nat, complete: bool)
      requires Valid()
      modifies this`queryMethod, this`queryUri, abHeader, abHeader.buffer
      ensures Valid() && Kept() && p <= |buffer|
      ensures match TargetOf(old(abHeader.Contents()), old(queryMethod), old(queryUri), buffer)
        case None => !complete
        case Some(t) =>
          complete && abHeader.Contents() == t.header && queryMethod == Some(t.method_) && queryUri == Some(t.uri) && buffer[p..] == t.rest
      ensures queryVersion.None? ==>
        LineOn(old(LineOf()), buffer) ==
        if complete then QueryOn(LineOf(), buffer[p..]) else Progress(InLine(LineOf()), buffer[p..], false)
    {
      hide TargetOf, PathOf, LineOn, PathOn, CutOf, Taken, QueryOn, AutoBuffer.Valid, Behind;
      assert buffer[0..] == buffer;
      MethodStep(LineOf(), buffer);
      p, chunkSize, complete := ReadMethod(buffer, before);
      if !complete { return; }
      ghost var l, start := LineOf(), p;
      p, chunkSize, complete := ReadPath(buffer, p, chunkSize);
      PathStep(l, buffer[start..]);
    }

    /** The byte behind the buffer is looked at: method and path are complete, and nothing follows them. */
    ghost predicate LooksBehind(buffer: string)
      requires Valid()
      reads this, abHeader, abParams, abBody, abHeader.buffer, abParams.buffer, abBody.buffer
    {
      && headerProcess == First && abParams.readyPosition == 0
      && var t := TargetOf(abHeader.Contents(), queryMethod, queryUri, buffer); t.Some? && t.value.rest == ""
    }

    /** Of a cleared parser it depends on the text alone. */
    lemma ClearedLooks(buffer: string)
      requires Valid() && Cleared()
      ensures LooksBehind(buffer) <==> StopsAtEnd(buffer)
    {
      hide TargetOf;
    }

    /**
     * The query, if the path ended at a question mark; `beyond` is the byte
     * behind the buffer, which is looked at too when nothing is left.
     */
    method ReadQuery(buffer: string, beyond: char, start: nat, before: nat) returns (p: nat, chunkSize: nat, complete: bool)
      requires Valid() && start <= |buffer|
      requires !(abParams.readyPosition == 0 && start == |buffer| && beyond == '?')
      modifies abParams, abParams.buffer
      ensures Valid() && Kept() && start <= p <= |buffer|
      ensures queryMethod.Some? && queryUri.Some? && queryVersion.None? ==>
        QueryOn(old(LineOf()), buffer[start..]) ==
        if complete then VersionOn(LineOf(), buffer[p..]) else Progress(InLine(LineOf()), buffer[start..], false)
    {
      hide CutOf, Taken, VersionOn, Behind;
      p, chunkSize, complete := start, before, false;
      var size: nat := |buffer| - p;
      if abParams.readyPosition == 0 && (if p < |buffer| then buffer[p] else beyond) == '?' {
        p, size := p + 1, size - 1;
        assert buffer[p..] == buffer[start..][1..];
        var found;
        found, chunkSize := ParamsChunk(buffer, p, chunkSize);
        if !found { return; }
        p := p + chunkSize;
      }
      complete := true;
    }

    /** `get_chunk` into the empty parameter buffer. */
    method ParamsChunk(buffer: string, p: nat, before: nat) returns (found: bool, chunkSize: nat)
      requires Valid() && p <= |buffer| && abParams.readyPosition == 0
      modifies abParams, abParams.buffer
      ensures Valid() && Kept()
      ensures found <==> CutOf(buffer[p..], '?', " ").Some?
      ensures !found ==> abParams.Contents() == old(abParams.Contents())
      ensures found ==>
        var c := CutOf(buffer[p..], '?', " ").value;
        && abParams.Contents() == Taken(buffer[p..], c) && p + chunkSize <= |buffer| && buffer[p + chunkSize..] == Behind(buffer[p..], c)
    {
      hide CutOf, Taken;
      var reference;
      found, reference, chunkSize := GetChunk(buffer, p, '?', " ", abParams, before);
      if found {
        ghost var c := CutOf(buffer[p..], '?', " ").value;
        TakenEnds(buffer[p..], c);
        assert abParams.Contents() == Taken(buffer[p..], c);
        assert buffer[p + chunkSize..] == buffer[p..][chunkSize..];
      }
    }

    /** The version, and the end of its line. */
    method ReadVersion(buffer: string, start: nat, before: nat) returns (p: nat, chunkSize: nat, complete: bool, ghost open: bool)
      requires Valid() && start <= |buffer|
      modifies this`queryVersion, this`headerProcess, abHeader, abHeader.buffer
      ensures Valid() && Kept() && start <= p <= |buffer| && (complete ==> queryVersion.Some?)
      ensures headerProcess == if complete && old(queryVersion).None? then Next else old(headerProcess)
      ensures queryMethod.Some? && queryUri.Some? && old(queryVersion).None? ==>
        VersionOn(old(LineOf()), buffer[start..]) ==
        if complete then FieldsOn(DocOf(LineOf()), buffer[p..], open) else Progress(InLine(LineOf()), buffer[start..], false)
      ensures !complete ==> queryVersion.None?
    {
      hide CutOf, Taken, DropEol, Behind, FieldsOn;
      p, chunkSize, complete, open := start, before, false, false;
      if queryVersion.None? {
        var found, reference;
        found, reference, chunkSize := HeaderChunk(buffer, p, [CR, LF], chunkSize);
        if !found { return; }
        queryVersion := Some(reference);
        open := buffer[p + chunkSize..] == "";
        p, chunkSize := PassEol(buffer, p + chunkSize, chunkSize);
        headerProcess := Next;
      }
      complete := true;
    }

    /** The request line, as far as it has not been read yet. What was read up to an incomplete part counts as processed. */
    method ProcessLine(buffer: string, beyond: char, before: nat)
      returns (p: nat, processed: nat, chunkSize: nat, complete: bool, ghost open: bool)
      requires Valid() && headerProcess == First && (beyond == '?' ==> !LooksBehind(buffer))
      modifies this`queryMethod, this`queryUri, this`queryVersion, this`headerProcess
      modifies abHeader, abHeader.buffer, abParams, abParams.buffer
      ensures Valid() && Kept() && p <= |buffer| && processed <= |buffer| && (complete ==> processed == p)
      ensures headerProcess == old(headerProcess) || complete
      ensures old(queryVersion).None? ==>
        if complete then
          && queryMethod.Some? && queryUri.Some? && queryVersion.Some? && headerProcess == Next
          && LineOn(old(LineOf()), buffer) == FieldsOn(DocOf(LineOf()), buffer[p..], open)
        else queryVersion.None? && LineOn(old(LineOf()), buffer) == Progress(InLine(LineOf()), buffer[processed..], false)
    {
      hide LineOn, QueryOn, VersionOn, FieldsOn, TargetOf;
      open := false;
      p, chunkSize, complete := ReadTarget(buffer, before);
      processed := p;
      if !complete { return; }
      p, chunkSize, complete := ReadQuery(buffer, beyond, p, chunkSize);
      if !complete { return; }
      processed := p;
      p, chunkSize, complete, open := ReadVersion(buffer, p, chunkSize);
      if !complete { return; }
      processed := p;
    }

    /** A field whose texts are in the header buffer is noted, and looked at where the parser itself needs it. */
    method NoteField(keyAt: nat, valueAt: nat, valueSize: nat)
      requires Valid() && keyAt <= abHeader.readyPosition && valueAt < abHeader.readyPosition
      requires abHeader.Contents()[abHeader.readyPosition - 1] == NUL && valueSize >= abHeader.readyPosition - valueAt
      modifies this`headerValues, this`contentLength, this`cookies, abHeader.buffer
      ensures Valid()
      ensures headerValues == old(headerValues) + [(keyAt, valueAt)]
      ensures var header := old(abHeader.Contents());
        if old(contentLength) == NPOS && CString(header, keyAt) == CONTENT_LENGTH then
          contentLength == ToSize(Atoi(CString(header, valueAt))) && abHeader.Contents() == header && cookies == old(cookies)
        else if CString(header, keyAt) == COOKIE then
          var r := Scan(header[valueAt..], 0, 0, None, ';', true);
          contentLength == old(contentLength) && abHeader.Contents() == header[..valueAt] + r.text
          && cookies == old(cookies) + Shifted(r.pairs, valueAt)
        else contentLength == old(contentLength) && abHeader.Contents() == header && cookies == old(cookies)
    {
      hide CString, Scan, Shifted, Atoi, ToSize;
      var text := abHeader.buffer[..abHeader.readyPosition];
      headerValues := headerValues + [(keyAt, valueAt)];
      if contentLength == NPOS && CString(text, keyAt) == CONTENT_LENGTH {
        contentLength := ToSize(Atoi(CString(text, valueAt)));
      } else if CString(text, keyAt) == COOKIE {
        cookies := ParseString(abHeader, valueAt, valueSize, valueAt, cookies, ';', true);
        assert abHeader.Contents() == abHeader.Contents()[..valueAt] + abHeader.Contents()[valueAt..];
        assert abHeader.Contents()[..valueAt] == abHeader.buffer[..valueAt] == text[..valueAt];
      }
    }

    /** Name and value of a header field copied; when one is missing, what was copied is left behind. */
    method CopyField(buffer: string, start: nat, before: nat)
      returns (p: nat, chunkSize: nat, complete: bool, keyAt: nat, valueAt: nat, valueSize: nat)
      requires Valid() && start <= |buffer|
      modifies abHeader, abHeader.buffer
      ensures Valid() && Kept() && start <= p <= |buffer|
      ensures var d, header := buffer[start..], old(abHeader.Contents());
        match CutOf(d, ' ', ":")
        case None => !complete && header <= abHeader.Contents()
        case Some(k) =>
          match CutOf(Behind(d, k), ' ', [CR, LF])
          case None => !complete && header <= abHeader.Contents()
          case Some(v) =>
            && complete && start < p
            && abHeader.Contents() == header + Taken(d, k) + Taken(Behind(d, k), v)
            && keyAt == |header| + k.skip && valueAt == |header + Taken(d, k)| + v.skip && valueSize == v.end + 1
            && buffer[p..] == DropEol(Behind(Behind(d, k), v))
    {
      hide CutOf, Taken, Behind, DropEol;
      p, complete, valueAt, valueSize := start, false, 0, 0;
      var found;
      found, keyAt, chunkSize := HeaderChunk(buffer, p, ":", before);
      if !found { return; }
      p := p + chunkSize;
      found, valueAt, valueSize := HeaderChunk(buffer, p, [CR, LF], 0);
      if !found { return; }
      p, chunkSize := PassEol(buffer, p + valueSize, chunkSize);
      complete := true;
    }

    /** One header field. */
    method ReadField(buffer: string, start: nat, before: nat, ghost doc: Doc) returns (p: nat, chunkSize: nat, complete: bool)
      requires Valid() && start <= |buffer|
      modifies this`headerValues, this`contentLength, this`cookies, abHeader, abHeader.buffer
      ensures Valid() && Kept() && start <= p <= |buffer| && (complete ==> start < p)
      ensures old(Shows(doc)) ==>
        match FieldOf(doc, buffer[start..])
        case None => !complete && ShowsMore(doc)
        case Some(step) => complete && Shows(step.0) && buffer[p..] == step.1
    {
      hide CutOf, Taken, Behind, DropEol, AddField, Scan, CString;
      var keyAt, valueAt, valueSize;
      ghost var d, header := buffer[start..], abHeader.Contents();
      p, chunkSize, complete, keyAt, valueAt, valueSize := CopyField(buffer, start, before);
      if complete {
        ghost var k := CutOf(d, ' ', ":").value;
        ghost var v := CutOf(Behind(d, k), ' ', [CR, LF]).value;
        TakenSize(d, k);
        TakenSize(Behind(d, k), v);
        AddFieldForm(doc, Taken(d, k), k.skip, Taken(Behind(d, k), v), v.skip);
        NoteField(keyAt, valueAt, valueSize);
      }
    }

    /** The header fields and the empty line; behind a field that is not all there, some of it stays in the buffer. */
    method ProcessFields(buffer: string, start: nat, before: nat, ghost doc: Doc)
      returns (p: nat, processed: nat, complete: bool)
      requires Valid() && start <= |buffer|
      modifies this`headerValues, this`contentLength, this`cookies, this`headerProcess, this`bodyProcess
      modifies abHeader, abHeader.buffer
      ensures Valid() && start <= processed <= p <= |buffer| && (complete ==> processed == p)
      ensures abHeader.buffer == old(abHeader.buffer) || fresh(abHeader.buffer)
      ensures headerProcess == if complete then Successful else old(headerProcess)
      ensures bodyProcess == if complete then First else old(bodyProcess)
      ensures old(Shows(doc)) ==>
        var q := FieldsOn(doc, buffer[start..], false);
        && complete == q.stage.HeadDone? && buffer[processed..] == q.rest
        && if complete then Shows(q.stage.doc) else ShowsMore(q.stage.doc)
    {
      hide FieldsOn, FieldOf, FieldOpen, ShowsMore;
      p, processed, complete := start, start, false;
      var chunkSize := before;
      ghost var shown, doc' := Shows(doc), doc;
      while |buffer| - p >= 2
        invariant Valid() && start <= p == processed <= |buffer| && !complete
        invariant headerProcess == old(headerProcess) && bodyProcess == old(bodyProcess)
        invariant abHeader.buffer == old(abHeader.buffer) || fresh(abHeader.buffer)
        invariant shown ==> Shows(doc') && SameWay(FieldsOn(doc', buffer[p..], false), FieldsOn(doc, buffer[start..], false))
        decreases |buffer| - p
      {
        FieldsOnStep(doc', buffer[p..], false);
        if buffer[p] == CR && buffer[p + 1] == LF {
          headerProcess, bodyProcess := Successful, First;
          assert buffer[p..][2..] == buffer[p + 2..];
          p, processed, complete := p + 2, processed + 2, true;
          return;
        }
        ghost var step := FieldOf(doc', buffer[p..]);
        if step.Some? { OpenOnly(step.value.0, step.value.1, FieldOpen(buffer[p..])); }
        var read;
        p, chunkSize, read := ReadField(buffer, p, chunkSize, doc');
        if !read {
          label Stopped:
          abHeader.DecrementFreeSize(chunkSize);
          if shown { StillMore@Stopped(doc'); }
          p := processed;
          return;
        }
        processed := p;
        if shown { doc' := step.value.0; }
      }
      FieldsOnStep(doc', buffer[p..], false);
      if shown { ShowsAll(doc'); }
    }

    lemma ShowsAll(doc: Doc)
      requires Valid() && Shows(doc)
      ensures ShowsMore(doc)
    {
    }

    /** What lies behind the header may grow. */
    twostate lemma StillMore(doc: Doc)
      requires old(Valid()) && Valid() && old(ShowsMore(doc)) && unchanged(this) && unchanged(abParams) && unchanged(abParams.buffer)
      requires abHeader.buffer == old(abHeader.buffer) && unchanged(abHeader.buffer) && abHeader.readyPosition >= old(abHeader.readyPosition)
      ensures ShowsMore(doc)
    {
    }

    /** The body, or more of it, and with its end the parameters. */
    method ProcessBody(buffer: string, p: nat) returns (taken: nat)
      requires Valid() && p <= |buffer|
      modifies this`bodyProcess, this`contentLength, this`paramsValue, abParams, abParams.buffer, abBody, abBody.buffer
      ensures Valid() && p + taken <= |buffer|
      ensures abParams.buffer == old(abParams.buffer) || fresh(abParams.buffer)
      ensures abBody.buffer == old(abBody.buffer) || fresh(abBody.buffer)
      ensures old(bodyProcess) != First && old(bodyProcess) != Next ==>
        taken == 0 && bodyProcess == old(bodyProcess) && paramsValue == old(paramsValue) && contentLength == old(contentLength)
        && abParams.Contents() == old(abParams.Contents()) && abBody.Contents() == old(abBody.Contents())
      ensures old(bodyProcess) == First || old(bodyProcess) == Next ==>
        var r := PortionOf(old(contentLength), |old(abBody.Contents())|, |buffer| - p);
        && taken == r.taken && abBody.Contents() == old(abBody.Contents()) + buffer[p..p + taken]
        && bodyProcess == (if r.done then Successful else old(bodyProcess))
        && contentLength == LengthThen(abHeader.Contents(), headerValues, old(abParams.Contents()), abBody.Contents(), old(contentLength), r)
        && var params := ParamsThen(abHeader.Contents(), headerValues, old(abParams.Contents()), abBody.Contents(), r);
           var scan := Scan(params, 0, 0, None, '&', false);
           && abParams.Contents() == (if r.done then scan.text else params)
           && paramsValue == old(paramsValue) + (if r.done then scan.pairs else [])
    {
      hide Scan, IsForm, Merged;
      taken := 0;
      assert abBody.Contents() + buffer[p..p] == abBody.Contents() && paramsValue + [] == paramsValue;
      if bodyProcess == First || bodyProcess == Next {
        var size := |buffer| - p;
        var chunk := if size < contentLength then size else contentLength;
        if contentLength == NPOS || (size == 0 && contentLength == 0) {
          bodyProcess := Successful;
          contentLength := 0;
        } else if chunk != 0 {
          taken := chunk;
          TakeBody(buffer[p..p + chunk]);
        }
        if bodyProcess == Successful { ReadParams(); }
      }
    }

    /** The parameters are taken apart in place. */
    method ReadParams()
      requires Valid()
      modifies this`paramsValue, abParams.buffer
      ensures Valid()
      ensures var r := Scan(old(abParams.Contents()), 0, 0, None, '&', false);
        abParams.Contents() == r.text && paramsValue == old(paramsValue) + r.pairs
    {
      hide Scan, Shifted;
      ghost var params := abParams.Contents();
      assert params[0..] == params;
      paramsValue := ParseString(abParams, 0, abParams.readyPosition, 0, paramsValue, '&', false);
      assert abParams.Contents()[0..] == abParams.Contents();
      NotShifted(Scan(params, 0, 0, None, '&', false).pairs);
      if params != [] { ScanEnds(params, 0, 0, None, '&', false); }
    }

    /** Bytes of the body; the last ones complete it, and a form becomes parameters. */
    method TakeBody(part: string)
      requires Valid()
      modifies this`bodyProcess, this`contentLength, abParams, abParams.buffer, abBody, abBody.buffer
      ensures Valid()
      ensures abParams.buffer == old(abParams.buffer) || fresh(abParams.buffer)
      ensures abBody.buffer == old(abBody.buffer) || fresh(abBody.buffer)
      ensures abBody.Contents() == old(abBody.Contents()) + part
      ensures bodyProcess == if |abBody.Contents()| >= old(contentLength) then Successful else old(bodyProcess)
      ensures abParams.Contents() ==
        if |abBody.Contents()| >= old(contentLength) && IsForm(abHeader.Contents(), headerValues)
        then Merged(old(abParams.Contents()), abBody.Contents()) else old(abParams.Contents())
      ensures contentLength == old(contentLength) +
        if |abBody.Contents()| >= old(contentLength) && IsForm(abHeader.Contents(), headerValues)
        then |abParams.Contents()| - |abBody.Contents()| - 1 else 0
    {
      hide IsForm, Merged;
      abBody.Append(part);
      if abBody.readyPosition >= contentLength {
        bodyProcess := Successful;
        var form := HasForm();
        if form {
          var added := MergeForm(abParams, abBody.buffer[..abBody.readyPosition]);
          contentLength := contentLength + added;
          MergedEnds(old(abParams.Contents()), abBody.Contents());
        }
      }
    }

    method HasForm() returns (form: bool)
      requires Valid()
      ensures form == IsForm(abHeader.Contents(), headerValues)
    {
      var text := abHeader.buffer[..abHeader.readyPosition];
      var i := 0;
      assert headerValues[0..] == headerValues;
      while i < |headerValues|
        invariant i <= |headerValues|
        invariant HeaderValue(text, headerValues[i..], CONTENT_TYPE) == HeaderValue(text, headerValues, CONTENT_TYPE)
      {
        assert headerValues[i] in headerValues && headerValues[i..][0] == headerValues[i] && headerValues[i..][1..] == headerValues[i + 1..];
        if SameFolded(CONTENT_TYPE, CString(text, headerValues[i].0)) {
          form := FindSubValue(CString(text, headerValues[i].1), FORM);
          return;
        }
        i := i + 1;
      }
      form := false;
    }

    /** What has come of a whole header and what follows it. */
    ghost predicate Finished(doc: Doc, rest: string)
      requires Valid()
      reads this, abHeader, abParams, abBody, abHeader.buffer, abParams.buffer, abBody.buffer
    {
      && abHeader.Contents() == doc.header && headerValues == doc.fields && cookies == doc.cookies
      && queryMethod == Some(doc.method_) && queryUri == Some(doc.uri) && queryVersion == Some(doc.version)
      && headerProcess == Successful && bodyProcess == (if BodyDone(doc, rest) then Successful else First)
      && abBody.Contents() == rest[..BodySize(doc, rest)]
      && FieldsInside(doc)
      && contentLength == LengthAfter(doc, rest)
      && var params := ParamsWith(doc, rest);
         var r := Scan(params, 0, 0, None, '&', false);
         && abParams.Contents() == (if BodyDone(doc, rest) then r.text else params)
         && paramsValue == (if BodyDone(doc, rest) then r.pairs else [])
    }

    /** The stored offsets, read as C strings, give the request back; a cookie has been cut up in place. */
    ghost predicate Reads(r: Request)
      requires Valid()
      reads this, abHeader, abParams, abBody, abHeader.buffer, abParams.buffer, abBody.buffer
    {
      var text := abHeader.Contents();
      && queryMethod.Some? && queryMethod.value <= |text| && CString(text, queryMethod.value) == r.method_
      && queryUri.Some? && queryUri.value <= |text| && CString(text, queryUri.value) == r.path
      && queryVersion.Some? && queryVersion.value <= |text| && CString(text, queryVersion.value) == r.version
      && |headerValues| == |r.fields|
      && (forall i | 0 <= i < |r.fields| ::
            && headerValues[i].0 <= |text| && headerValues[i].1 <= |text|
            && CString(text, headerValues[i].0) == r.fields[i].name
            && (r.fields[i].name != COOKIE ==> CString(text, headerValues[i].1) == r.fields[i].value))
      && abBody.Contents() == r.body
      && (var params := Scan(SentParams(r), 0, 0, None, '&', false);
          abParams.Contents() == params.text && paramsValue == params.pairs)
      && forall jar :: JarOf(r.fields, jar) ==> CookiesRead(text, cookies, Poured(jar))
    }

    /** Parameters that are a printed list of keys and values read back entry by entry, and are looked up by key. */
    lemma QueryReads(r: Request, es: seq<Entry>, key: string, byDefault: Option<string>)
      requires Valid() && Reads(r) && es != [] && SentParams(r) == PrintEntries(es, '&')
      requires forall e | e in es :: EntryOk(e, '&')
      ensures |paramsValue| == |es|
      ensures forall i | 0 <= i < |es| :: ReadsAs(abParams.Contents(), paramsValue[i], es[i], false)
      ensures PairsInside(abParams.Contents(), paramsValue)
      ensures Lookup(abParams.Contents(), paramsValue, key, byDefault) == FindEntry(es, key, byDefault, false)
    {
      hide Scan, ReadsAs, PrintEntries, CString, EntryOk, PairsInside, Lookup, FindEntry, JarOf, CookiesRead, SentParams;
      ParseUndoesPrint(es, '&', false);
      LookupReads(abParams.Contents(), paramsValue, es, key, byDefault, false);
    }

    /** The same for the cookies. */
    lemma CookieReads(r: Request, jar: seq<seq<Entry>>, key: string, byDefault: Option<string>)
      requires Valid() && Reads(r) && JarOf(r.fields, jar)
      ensures CookiesRead(abHeader.Contents(), cookies, Poured(jar))
      ensures PairsInside(abHeader.Contents(), cookies)
      ensures Lookup(abHeader.Contents(), cookies, key, byDefault) == FindEntry(Poured(jar), key, byDefault, true)
    {
      hide Scan, ReadsAs, CString, PairsInside, Lookup, FindEntry, JarOf, SentParams;
      LookupReads(abHeader.Contents(), cookies, Poured(jar), key, byDefault, true);
    }

    /** More of a body whose header is known; the header is left alone. */
    twostate predicate MoreBody(buffer: string, processed: nat)
      requires old(Valid()) && Valid()
      reads this, abHeader, abParams, abBody, abHeader.buffer, abParams.buffer, abBody.buffer
    {
      var r := PortionOf(old(contentLength), |old(abBody.Contents())|, |buffer|);
      && processed == r.taken && abBody.Contents() == old(abBody.Contents()) + buffer[..r.taken]
      && headerProcess == Successful && bodyProcess == (if r.done then Successful else First)
      && abHeader.Contents() == old(abHeader.Contents()) && headerValues == old(headerValues) && cookies == old(cookies)
      && queryMethod == old(queryMethod) && queryUri == old(queryUri) && queryVersion == old(queryVersion)
      && contentLength == LengthThen(abHeader.Contents(), headerValues, old(abParams.Contents()), abBody.Contents(), old(contentLength), r)
      && var params := ParamsThen(abHeader.Contents(), headerValues, old(abParams.Contents()), abBody.Contents(), r);
         var scan := Scan(params, 0, 0, None, '&', false);
         && abParams.Contents() == (if r.done then scan.text else params)
         && paramsValue == old(paramsValue) + (if r.done then scan.pairs else [])
    }

    /** Nothing that is known has changed. */
    twostate predicate Untouched()
      requires old(Valid()) && Valid()
      reads this, abHeader, abParams, abBody, abHeader.buffer, abParams.buffer, abBody.buffer
    {
      && headerProcess == old(headerProcess) && bodyProcess == old(bodyProcess) && contentLength == old(contentLength)
      && abHeader.Contents() == old(abHeader.Contents()) && abParams.Contents() == old(abParams.Contents())
      && abBody.Contents() == old(abBody.Contents())
      && queryMethod == old(queryMethod) && queryUri == old(queryUri) && queryVersion == old(queryVersion)
      && headerValues == old(headerValues) && paramsValue == old(paramsValue) && cookies == old(cookies)
    }

    /** Of what follows the header, `n` bytes are the body; the request is ready unless some are missing, or are there unannounced. */
    ghost predicate TakesBody(r: Request, n: nat, processed: nat)
      requires Valid()
      reads this, abHeader, abParams, abBody, abHeader.buffer, abParams.buffer, abBody.buffer
    {
      var size := if n < |r.body| then n else |r.body|;
      && processed == |Print(r)| - |r.body| + size && abBody.Contents() == r.body[..size]
      && (IsReady() <==> |r.body| >= n && (n == 0 ==> r.body == ""))
      && (IsReady() ==> Reads(r.(body := r.body[..size])))
    }

    /** Without a length nothing of it is. */
    ghost predicate TakesNone(r: Request, processed: nat)
      requires Valid()
      reads this, abHeader, abParams, abBody, abHeader.buffer, abParams.buffer, abBody.buffer
    {
      processed == |Print(r)| - |r.body| && IsReady() && Reads(r.(body := ""))
    }

    /**
     * `process_data`. On a cleared parser a header that is all there is read
     * with its body. `beyond` stands for the byte behind the buffer; a question
     * mark there is trouble if and only if it is looked at. Of a printed header
     * with anything behind it, just the announced body is taken, and what is
     * stored reads back as that request; of a part of one nothing is ready. A
     * parser that is ready takes nothing.
     */
    method ProcessData(buffer: string, beyond: char) returns (processed: nat)
      requires Valid() && (beyond == '?' ==> !LooksBehind(buffer))
      modifies Repr()
      ensures Valid() && fresh(Repr() - old(Repr()))
      ensures old(headerProcess) == Successful && old(bodyProcess) == First ==> MoreBody(buffer, processed)
      ensures old(IsReady()) ==> processed == 0 && Untouched()
      ensures old(InHeader()) ==>
        var q := HeadOn(old(Standing()), buffer);
        if q.stage.HeadDone? then Finished(q.stage.doc, q.rest) && processed == |buffer| - |q.rest| + BodySize(q.stage.doc, q.rest)
        else CameTo(q.stage) && processed == |buffer| - |q.rest|
      ensures old(Cleared()) ==>
        match Head(buffer)
        case Incomplete => !IsReady()
        case Parsed(doc, rest) => Finished(doc, rest) && processed == |buffer| - |rest| + BodySize(doc, rest)
      ensures old(Cleared()) ==> forall r: Request, n: nat :: buffer == Print(r) && RequestOk(r) && Announces(r.fields, n) ==>
        TakesBody(r, n, processed)
      ensures old(Cleared()) ==> forall r: Request :: buffer == Print(r) && RequestOk(r) && AnnouncesNothing(r.fields) ==>
        TakesNone(r, processed)
      ensures old(Cleared()) ==> forall r: Request, k: nat ::
        RequestOk(r) && r.body == "" && k < |Print(r)| && buffer == Print(r)[..k] ==> !IsReady()
      ensures old(Cleared()) ==> forall r: Request :: buffer == Print(r) && RequestOk(r) && Bounded(r) ==>
        IsReady() && processed == |buffer| && Reads(r)
    {
      hide Head, RequestLine, Fields, Scan, BodyDone, BodySize, ParamsWith, Print, RequestOk, Bounded, Reads, Finished, JarOf, CookiesRead, Poured,
        SentParams, TakesBody, TakesNone, Announces, AnnouncesNothing, LengthOf, LengthAfter, MoreBody, Untouched, HeadOn, CameTo, Standing,
        InHeader, Cleared, LooksBehind;
      if Cleared() { ClearedStands(); }
      processed := ProcessAll(buffer, beyond);
      if old(Cleared()) {
        HeadIs(buffer);
        NotReady(HeadOn(NOTHING_READ, buffer).stage);
        forall r: Request | buffer == Print(r) && RequestOk(r)
          ensures forall n :: Announces(r.fields, n) ==> TakesBody(r, n, processed)
          ensures AnnouncesNothing(r.fields) ==> TakesNone(r, processed)
          ensures Bounded(r) ==> IsReady() && processed == |buffer| && Reads(r)
        {
          PrintedTaken(r, processed);
        }
        forall r: Request, k: nat | RequestOk(r) && r.body == "" && k < |Print(r)| && buffer == Print(r)[..k] ensures !IsReady() {
          PartIncomplete(r, k);
        }
      }
    }

    lemma ClearedStands()
      requires Valid() && Cleared()
      ensures InHeader() && Standing() == NOTHING_READ
    {
    }

    /** What reads the same as a printed header reads back as that request. */
    lemma AlikeReads(r: Request, doc: Doc)
      requires Valid() && Finished(doc, r.body) && RequestOk(r) && Head(Print(r)).Parsed? && Alike(doc, Head(Print(r)).doc)
      ensures BodyDone(doc, r.body) ==> IsReady() && Reads(r.(body := r.body[..BodySize(doc, r.body)]))
    {
      hide Scan, BodyDone, BodySize, ParamsWith, ParamsThen, CString, SentParams, JarOf, CookiesRead, Poured, LengthOf, LengthAfter, Head, Print,
        RequestOk, Alike, Reads, IsReady, Finished;
      if BodyDone(doc, r.body) {
        HeadUndoesPrint(r);
        var printed := Head(Print(r)).doc;
        AlikeParams(doc, printed, r.body);
        RequestFinished(r, printed);
        forall jar | JarOf(r.fields, jar) ensures CookiesRead(doc.header, doc.cookies, Poured(jar)) {
          CookiesUndoPrint(r, jar);
          AlikeCookies(doc, printed, Poured(jar));
        }
        AlikeHead(doc, printed, r);
        SeenReads(r, doc);
      }
    }

    lemma SeenReads(r: Request, doc: Doc)
      requires Valid() && Finished(doc, r.body) && BodyDone(doc, r.body) && HeadSeen(doc, r)
      requires FieldsInside(doc) && ParamsWith(doc, r.body) == SentParams(r.(body := r.body[..BodySize(doc, r.body)]))
      requires forall jar :: JarOf(r.fields, jar) ==> CookiesRead(doc.header, doc.cookies, Poured(jar))
      ensures IsReady() && Reads(r.(body := r.body[..BodySize(doc, r.body)]))
    {
      hide Scan, BodyDone, BodySize, ParamsWith, CString, SentParams, JarOf, CookiesRead, Poured, LengthOf, LengthAfter;
    }

    lemma FinishedPhase(doc: Doc, rest: string)
      requires Valid() && Finished(doc, rest)
      ensures headerProcess == Successful
    {
    }

    /** After a piece, whatever was left behind the header. */
    lemma StandsThere(s: Stage, u: Stage)
      requires Valid() && CameTo(s) && !s.HeadDone? && AlikeStages(s, u)
      ensures InHeader() && AlikeStages(Standing(), u) && headerProcess != Successful
    {
      hide Alike, LineEnds;
      if s.InFields? { AlikeLeft(s, u, abHeader.Contents()); }
    }

    lemma NotReady(s: Stage)
      requires Valid()
      ensures CameTo(s) && !s.HeadDone? ==> !IsReady()
    {
    }

    /** What a printed header with anything behind it comes to. */
    lemma PrintedTaken(r: Request, processed: nat)
      requires Valid() && RequestOk(r)
      requires var p := Head(Print(r));
        p.Parsed? ==> Finished(p.doc, p.rest) && processed == |Print(r)| - |p.rest| + BodySize(p.doc, p.rest)
      ensures forall n :: Announces(r.fields, n) ==> TakesBody(r, n, processed)
      ensures AnnouncesNothing(r.fields) ==> TakesNone(r, processed)
      ensures Bounded(r) ==> IsReady() && processed == |Print(r)| && Reads(r)
    {
      hide Head, Print, RequestOk, Reads, Finished, JarOf, CookiesRead, Poured, SentParams, Announces, AnnouncesNothing, LineReads, FieldsRead,
        ParamsWith, BodyDone, BodySize, TakesBody, TakesNone;
      HeadUndoesPrint(r);
      var doc, all := Head(Print(r)).doc, |Print(r)|;
      forall jar | JarOf(r.fields, jar) ensures CookiesRead(doc.header, doc.cookies, Poured(jar)) { CookiesUndoPrint(r, jar); }
      DoneReads(r, doc);
      BodyForms(doc, r.body);
      forall n | Announces(r.fields, n) ensures TakesBody(r, n, processed) {
        LengthRead(r.fields, n);
        TakenForms(r, doc, n, processed);
      }
      if AnnouncesNothing(r.fields) {
        LengthRead(r.fields, 0);
        assert r.body[..0] == "";
        TakenNone(r, doc, processed);
      }
      assert r.body[..|r.body|] == r.body;
    }

    lemma TakenForms(r: Request, doc: Doc, n: nat, processed: nat)
      requires Valid() && Finished(doc, r.body) && doc.length == n < NPOS
      requires processed == |Print(r)| - |r.body| + BodySize(doc, r.body)
      requires BodyDone(doc, r.body) ==> Reads(r.(body := r.body[..BodySize(doc, r.body)]))
      ensures TakesBody(r, n, processed)
    {
      hide Print, Reads, ParamsWith, LengthAfter, Scan;
    }

    lemma TakenNone(r: Request, doc: Doc, processed: nat)
      requires Valid() && Finished(doc, r.body) && doc.length == NPOS
      requires processed == |Print(r)| - |r.body| + BodySize(doc, r.body)
      requires BodyDone(doc, r.body) ==> Reads(r.(body := r.body[..BodySize(doc, r.body)]))
      ensures TakesNone(r, processed)
    {
      hide Print, Reads, ParamsWith, LengthAfter, Scan;
      assert r.body[..0] == "";
    }

    /** Request line and header fields, as far as they are not known yet; without a whole line nothing follows. */
    method ReadHead(buffer: string, beyond: char) returns (p: nat, processed: nat, lineRead: bool)
      requires Valid() && (beyond == '?' ==> !LooksBehind(buffer))
      modifies this`queryMethod, this`queryUri, this`queryVersion, this`headerValues, this`contentLength, this`cookies
      modifies this`headerProcess, this`bodyProcess
      modifies abHeader, abHeader.buffer, abParams, abParams.buffer
      ensures Valid() && p <= |buffer|
      ensures abHeader.buffer == old(abHeader.buffer) || fresh(abHeader.buffer)
      ensures abParams.buffer == old(abParams.buffer) || fresh(abParams.buffer)
      ensures old(InHeader()) ==>
        var q := HeadOn(old(Standing()), buffer);
        && CameTo(q.stage) && processed <= |buffer| && buffer[processed..] == q.rest
        && (q.stage.HeadDone? ==> lineRead && processed == p)
    {
      hide LineOn, FieldsOn, AutoBuffer.Valid, Shows;
      p, processed, lineRead := 0, 0, true;
      var chunkSize: nat := *;
      ghost var open, inHeader := false, InHeader();
      ghost var doc := if inHeader && headerProcess == Next then Standing().doc else Doc([], [], 0, 0, 0, [], [], NPOS);
      assert buffer[0..] == buffer;
      var first := headerProcess == First;
      if first {
        p, processed, chunkSize, lineRead, open := ProcessLine(buffer, beyond, chunkSize);
        if !lineRead { return; }
        if inHeader { doc := DocOf(LineOf()); }
      }
      if first || headerProcess == Next {
        if inHeader {
          OpenOnly(doc, buffer[p..], open);
          ShownDoc(doc);
        }
        var complete;
        p, processed, complete := ProcessFields(buffer, p, chunkSize, doc);
      }
    }

    lemma ShownDoc(doc: Doc)
      requires Valid() && queryMethod.Some? && queryUri.Some? && queryVersion.Some?
      ensures doc == Doc(abHeader.Contents(), abParams.Contents(), queryMethod.value, queryUri.value, queryVersion.value, headerValues, cookies, contentLength)
        <==> Shows(doc)
    {
    }

    twostate lemma StillThere(s: Stage)
      requires old(Valid()) && Valid() && old(CameTo(s)) && unchanged(this)
      requires abHeader.Contents() == old(abHeader.Contents()) && abParams.Contents() == old(abParams.Contents())
      requires abBody.Contents() == old(abBody.Contents())
      ensures CameTo(s)
    {
      assert |abBody.Contents()| == abBody.readyPosition && |old(abBody.Contents())| == old(abBody.readyPosition);
    }

    /** The header first, and then what there is of the body. */
    method ProcessHeader(buffer: string, beyond: char) returns (processed: nat)
      requires Valid() && (beyond == '?' ==> !LooksBehind(buffer))
      modifies Repr()
      ensures Valid() && fresh(Repr() - old(Repr()))
      ensures old(InHeader()) ==>
        var q := HeadOn(old(Standing()), buffer);
        if q.stage.HeadDone? then Finished(q.stage.doc, q.rest) && processed == |buffer| - |q.rest| + BodySize(q.stage.doc, q.rest)
        else CameTo(q.stage) && processed == |buffer| - |q.rest|
    {
      hide HeadOn, Scan, AutoBuffer.Valid, Finished, ParamsThen, LengthThen, PortionOf, CameTo, Standing, BodySize, InHeader, LooksBehind;
      var p, lineRead;
      ghost var inHeader := InHeader();
      ghost var q := if inHeader then HeadOn(Standing(), buffer) else Progress(NOTHING_READ, "", false);
      p, processed, lineRead := ReadHead(buffer, beyond);
      if !lineRead { return; }
      if inHeader { BodyAhead(q.stage); }
      label AfterHead:
      var taken := ProcessBody(buffer, p);
      if inHeader && !q.stage.HeadDone? { StillThere@AfterHead(q.stage); }
      if inHeader && q.stage.HeadDone? { FinishedWith(q.stage.doc, q.rest, buffer[p..p + taken]); }
      processed := processed + taken;
    }

    /** The switch over what is known already. */
    method ProcessAll(buffer: string, beyond: char) returns (processed: nat)
      requires Valid() && (beyond == '?' ==> !LooksBehind(buffer))
      modifies Repr()
      ensures Valid() && fresh(Repr() - old(Repr()))
      ensures old(headerProcess) == Successful && old(bodyProcess) == First ==> MoreBody(buffer, processed)
      ensures old(IsReady()) ==> processed == 0 && Untouched()
      ensures old(InHeader()) ==>
        var q := HeadOn(old(Standing()), buffer);
        if q.stage.HeadDone? then Finished(q.stage.doc, q.rest) && processed == |buffer| - |q.rest| + BodySize(q.stage.doc, q.rest)
        else CameTo(q.stage) && processed == |buffer| - |q.rest|
    {
      hide HeadOn, Scan, AutoBuffer.Valid, Finished, ParamsThen, LengthThen, PortionOf, CameTo, Standing, BodySize, LooksBehind;
      if headerProcess == First || headerProcess == Next {
        processed := ProcessHeader(buffer, beyond);
      } else {
        ghost var n := PortionOf(contentLength, |abBody.Contents()|, |buffer|).taken;
        assert buffer[0..0 + n] == buffer[..n];
        processed := ProcessBody(buffer, 0);
      }
    }

    /** Whether there is a body to be read, and what is known before it. */
    lemma BodyAhead(s: Stage)
      requires Valid() && CameTo(s)
      ensures bodyProcess == (if s.HeadDone? then First else NoPhase)
      ensures s.HeadDone? ==>
        && abBody.Contents() == [] && paramsValue == [] && headerProcess == Successful
        && abHeader.Contents() == s.doc.header && abParams.Contents() == s.doc.params
        && headerValues == s.doc.fields && cookies == s.doc.cookies && contentLength == s.doc.length
        && queryMethod == Some(s.doc.method_) && queryUri == Some(s.doc.uri) && queryVersion == Some(s.doc.version)
    {
    }

    lemma FinishedWith(doc: Doc, rest: string, part: string)
      requires Valid()
      requires abHeader.Contents() == doc.header && headerValues == doc.fields && cookies == doc.cookies
      requires queryMethod == Some(doc.method_) && queryUri == Some(doc.uri) && queryVersion == Some(doc.version)
      requires var r := PortionOf(doc.length, 0, |rest|);
        && headerProcess == Successful && bodyProcess == (if r.done then Successful else First)
        && abBody.Contents() == [] + part && part == rest[..r.taken]
        && contentLength == LengthThen(abHeader.Contents(), headerValues, doc.params, abBody.Contents(), doc.length, r)
        && var params := ParamsThen(abHeader.Contents(), headerValues, doc.params, abBody.Contents(), r);
           var scan := Scan(params, 0, 0, None, '&', false);
           && abParams.Contents() == (if r.done then scan.text else params)
           && paramsValue == [] + (if r.done then scan.pairs else [])
      ensures Finished(doc, rest) && |part| == BodySize(doc, rest)
    {
      hide Scan, ParamsThen, LengthThen, PortionOf;
      assert [] + part == part;
    }

    /** From what is finished to what it reads as. */
    lemma DoneReads(r: Request, doc: Doc)
      requires Valid() && Finished(doc, r.body)
      requires LineReads(doc, r) && FieldsRead(doc, r.fields) && doc.length == LengthOf(r.fields)
      requires forall jar :: JarOf(r.fields, jar) ==> CookiesRead(doc.header, doc.cookies, Poured(jar))
      ensures BodyDone(doc, r.body) ==> IsReady() && Reads(r.(body := r.body[..BodySize(doc, r.body)]))
    {
      hide Scan, BodyDone, BodySize, ParamsWith, CString, SentParams, JarOf, CookiesRead, Poured, LengthOf, LengthAfter;
      if BodyDone(doc, r.body) { RequestFinished(r, doc); }
    }
  }

  // A header that arrives in pieces

  /**
   * A cleared parser offered a text piece by piece, each piece behind what was
   * left of those before, until the header is there. Unless a piece goes on in
   * the middle of a line end, it is left with what the text at once comes to:
   * documents that read the same, and the same text left.
   */
  method OfferHead(parser: RequestParser, pieces: seq<string>) returns (used: nat, left: string, ghost doc: Doc)
    requires parser.Valid() && parser.Cleared() && CutsOutside(pieces)
    modifies parser.Repr()
    ensures parser.Valid() && used <= |pieces|
    ensures var q := HeadOn(NOTHING_READ, Concat(pieces[..used]));
      if q.stage.HeadDone? then
        Alike(doc, q.stage.doc) && parser.Finished(doc, q.rest) && q.rest == q.rest[..BodySize(doc, q.rest)] + left
      else
        used == |pieces| && parser.InHeader() && AlikeStages(parser.Standing(), q.stage) && left == q.rest
  {
    hide HeadOn, AlikeStages, Alike, Eol, RequestOk, Announces, AnnouncesNothing, Head, Concat, BodySize, RequestParser.Finished,
      RequestParser.MoreBody, RequestParser.TakesBody, RequestParser.TakesNone, RequestParser.LooksBehind, RequestParser.CameTo;
    used, left, doc := 0, "", Doc([], [], 0, 0, 0, [], [], NPOS);
    assert pieces == [] ==> pieces[..0] == pieces;
    NothingOffered(pieces);
    parser.ClearedStands();
    var done := false;
    while used < |pieces| && !done
      invariant used <= |pieces| && parser.Valid() && fresh(parser.Repr() - old(parser.Repr()))
      invariant var q := HeadOn(NOTHING_READ, Concat(pieces[..used]));
        && done == q.stage.HeadDone?
        && (done ==> Alike(doc, q.stage.doc) && parser.Finished(doc, q.rest) && q.rest == q.rest[..BodySize(doc, q.rest)] + left)
        && (!done ==> parser.InHeader() && AlikeStages(parser.Standing(), q.stage) && left == q.rest)
    {
      ghost var text := Concat(pieces[..used]);
      ghost var p, s := HeadOn(NOTHING_READ, text), parser.Standing();
      NextPiece(text, pieces[used]);
      ConcatNext(pieces, used);
      var offered := left + pieces[used];
      ghost var q := HeadOn(s, offered);
      HeadAlike(s, p.stage, offered);
      var processed := parser.ProcessData(offered, '\0');
      StageKind(q.stage, HeadOn(NOTHING_READ, text + pieces[used]).stage);
      RestBehind(s, offered);
      left := offered[processed..];
      if q.stage.HeadDone? {
        doc := q.stage.doc;
        parser.FinishedPhase(doc, q.rest);
        LeftOver(offered, q.rest, processed, BodySize(doc, q.rest));
      } else {
        parser.StandsThere(q.stage, HeadOn(NOTHING_READ, text + pieces[used]).stage);
      }
      done := parser.headerProcess == Successful;
      used := used + 1;
    }
  }

  /** The offsets read as method, path, version, names and values; a cookie is cut up. */
  ghost predicate HeadSeen(doc: Doc, r: Request) {
    && doc.method_ <= |doc.header| && CString(doc.header, doc.method_) == r.method_
    && doc.uri <= |doc.header| && CString(doc.header, doc.uri) == r.path
    && doc.version <= |doc.header| && CString(doc.header, doc.version) == r.version
    && |doc.fields| == |r.fields|
    && forall i | 0 <= i < |r.fields| ::
      && doc.fields[i].0 <= |doc.header| && doc.fields[i].1 <= |doc.header|
      && CString(doc.header, doc.fields[i].0) == r.fields[i].name
      && (r.fields[i].name != COOKIE ==> CString(doc.header, doc.fields[i].1) == r.fields[i].value)
  }

  lemma AlikeHead(doc: Doc, printed: Doc, r: Request)
    requires Alike(doc, printed) && LineReads(printed, r) && FieldsRead(printed, r.fields)
    ensures HeadSeen(doc, r)
  {
    hide CString, Ends;
  }

  lemma AlikeCookies(doc: Doc, printed: Doc, es: seq<Entry>)
    requires Alike(doc, printed) && CookiesRead(printed.header, printed.cookies, es)
    ensures CookiesRead(doc.header, doc.cookies, es)
  {
    hide CString;
    forall i | 0 <= i < |es|
      ensures doc.cookies[i].key < |doc.header| && (doc.cookies[i].value.Some? ==> doc.cookies[i].value.value < |doc.header|)
      ensures ReadsAs(doc.header, doc.cookies[i], es[i], true)
    {
      assert SamePair(doc.header, doc.cookies[i], printed.header, printed.cookies[i]);
    }
  }

  lemma {:induction false} AlikeValue(a: Doc, b: Doc, n: nat, key: string)
    requires Alike(a, b) && n <= |a.fields|
    requires (forall f | f in a.fields :: f.0 <= |a.header| && f.1 <= |a.header|) && (forall f | f in b.fields :: f.0 <= |b.header| && f.1 <= |b.header|)
    ensures HeaderValue(a.header, a.fields[n..], key) == HeaderValue(b.header, b.fields[n..], key)
    decreases |a.fields| - n
  {
    hide CString, Ends, SameFolded;
    if n < |a.fields| {
      AlikeValue(a, b, n + 1, key);
      assert a.fields[n..][1..] == a.fields[n + 1..] && b.fields[n..][1..] == b.fields[n + 1..];
    }
  }

  lemma {:induction false} AlikeParams(doc: Doc, printed: Doc, rest: string)
    requires Alike(doc, printed)
    ensures FieldsInside(doc) && FieldsInside(printed)
    ensures BodySize(doc, rest) == BodySize(printed, rest) && BodyDone(doc, rest) == BodyDone(printed, rest)
    ensures ParamsWith(doc, rest) == ParamsWith(printed, rest)
  {
    hide CString, Ends, Merged, FindSub, HeaderValue;
    AlikeValue(doc, printed, 0, CONTENT_TYPE);
    assert doc.fields[0..] == doc.fields && printed.fields[0..] == printed.fields;
  }

  lemma NothingOffered(pieces: seq<string>)
    ensures Concat(pieces[..0]) == "" && HeadOn(NOTHING_READ, "") == Progress(NOTHING_READ, "", false)
    ensures AlikeStages(NOTHING_READ, NOTHING_READ)
  {
  }

  lemma StageKind(s: Stage, u: Stage)
    requires AlikeStages(s, u)
    ensures (s.HeadDone? <==> u.HeadDone?) && (s.HeadDone? ==> Alike(s.doc, u.doc))
  {
    hide Alike;
  }

  lemma LeftOver(d: string, rest: string, processed: nat, taken: nat)
    requires processed <= |d| && |rest| <= |d| && d[|d| - |rest|..] == rest && taken <= |rest| && processed == |d| - |rest| + taken
    ensures rest == rest[..taken] + d[processed..]
  {
  }

  // A body that arrives in pieces

  /** The piece that brings the last byte that is missing. */
  predicate Completes(pieces: seq<string>, j: nat, n: nat)
    requires j < |pieces|
  {
    |Concat(pieces[..j])| < n <= |Concat(pieces[..j])| + |pieces[j]|
  }

  /**
   * What pieces offered one after the other come to: each is taken whole up to
   * the one that completes the body, and of that one up to `n` bytes, however
   * many are missing.
   */
  predicate BodyOf(body: string, pieces: seq<string>, j: nat, n: nat)
    requires j < |pieces|
  {
    body == Concat(pieces[..j]) + pieces[j][..if |pieces[j]| < n then |pieces[j]| else n]
  }

  lemma {:induction false} ConcatGrows(pieces: seq<string>, i: nat, j: nat)
    requires i <= j <= |pieces|
    ensures Concat(pieces[..i]) <= Concat(pieces[..j])
    decreases j
  {
    if i < j {
      ConcatGrows(pieces, i, j - 1);
      assert pieces[..j][..j - 1] == pieces[..j - 1];
    }
  }

  /** So the body is as announced if and only if the piece that completes it is the first one or brings no more than is missing. */
  lemma {:induction false} BodyAsAnnounced(body: string, pieces: seq<string>, j: nat, n: nat)
    requires j < |pieces| && Completes(pieces, j, n) && BodyOf(body, pieces, j, n)
    requires forall i | 0 <= i < j :: pieces[i] != ""
    ensures n <= |Concat(pieces)|
    ensures body == Concat(pieces)[..n] <==> j == 0 || |pieces[j]| == n - |Concat(pieces[..j])|
  {
    var front, all := Concat(pieces[..j]), Concat(pieces);
    ConcatGrows(pieces, j + 1, |pieces|);
    assert pieces[..j + 1][..j] == pieces[..j] && pieces[..|pieces|] == pieces;
    assert front + pieces[j] <= all;
    if j == 0 {
      assert front == "" && body == pieces[0][..n] == all[..n];
    } else {
      ConcatGrows(pieces, 1, j);
      assert pieces[..1][..0] == [] && Concat([]) == "" && Concat(pieces[..1]) == "" + pieces[0];
      assert pieces[0] != "" && |front| > 0;
      if |pieces[j]| == n - |front| {
        assert body == front + pieces[j] == all[..n];
      } else {
        assert |body| > n;
      }
    }
  }

  /** Four bytes announced, two and then four of them offered: six are taken. */
  lemma TooMuchTaken()
    ensures Completes(["ab", "cdGE"], 1, 4) && BodyOf("abcdGE", ["ab", "cdGE"], 1, 4)
  {
    var pieces := ["ab", "cdGE"];
    assert pieces[..1] == ["ab"] && ["ab"][..0] == [] && Concat(["ab"]) == Concat([]) + "ab" == "ab";
    assert "ab" + "cdGE"[..4] == "abcdGE";
  }

  /** The body of a request whose header is known, offered piece by piece until it is ready. */
  method OfferPieces(parser: RequestParser, pieces: seq<string>) returns (used: nat)
    requires parser.Valid() && parser.headerProcess == Successful && parser.bodyProcess == First && parser.abBody.readyPosition == 0
    requires 0 < parser.contentLength < NPOS && forall i | 0 <= i < |pieces| :: pieces[i] != ""
    modifies parser.Repr()
    ensures parser.Valid() && used <= |pieces|
    ensures var n := old(parser.contentLength);
      if parser.IsReady() then used > 0 && Completes(pieces, used - 1, n) && BodyOf(parser.abBody.Contents(), pieces, used - 1, n)
      else used == |pieces| && |Concat(pieces)| < n && parser.abBody.Contents() == Concat(pieces)
    ensures parser.abHeader.Contents() == old(parser.abHeader.Contents()) && parser.headerValues == old(parser.headerValues)
  {
    hide PortionOf, Concat, IsForm, Merged, Scan, ParamsThen, RequestOk, Announces, AnnouncesNothing, Head;
    ghost var n := parser.contentLength;
    used := 0;
    NoPieces(pieces);
    while used < |pieces| && !parser.IsReady()
      invariant used <= |pieces| && parser.Valid() && fresh(parser.Repr() - old(parser.Repr()))
      invariant parser.abHeader.Contents() == old(parser.abHeader.Contents()) && parser.headerValues == old(parser.headerValues)
      invariant parser.headerProcess == Successful && parser.bodyProcess == (if parser.IsReady() then Successful else First)
      invariant !parser.IsReady() ==> parser.contentLength == n && |Concat(pieces[..used])| < n && parser.abBody.Contents() == Concat(pieces[..used])
      invariant parser.IsReady() ==> used > 0 && Completes(pieces, used - 1, n) && BodyOf(parser.abBody.Contents(), pieces, used - 1, n)
    {
      PieceTaken(pieces, used, n);
      var _ := parser.ProcessData(pieces[used], '\0');
      used := used + 1;
    }
    assert pieces[..|pieces|] == pieces;
  }

  lemma NoPieces(pieces: seq<string>)
    ensures Concat(pieces[..0]) == "" && Concat([]) == ""
  {
  }

  lemma {:induction false} PieceTaken(pieces: seq<string>, j: nat, n: nat)
    requires j < |pieces| && pieces[j] != "" && |Concat(pieces[..j])| < n < NPOS
    ensures var had, r := Concat(pieces[..j]), PortionOf(n, |Concat(pieces[..j])|, |pieces[j]|);
      && r.done == Completes(pieces, j, n)
      && (r.done ==> BodyOf(had + pieces[j][..r.taken], pieces, j, n))
      && (!r.done ==> had + pieces[j][..r.taken] == Concat(pieces[..j + 1]) && |Concat(pieces[..j + 1])| < n)
  {
    assert pieces[..j + 1][..j] == pieces[..j];
    assert |pieces[j]| < n ==> pieces[j][..|pieces[j]|] == pieces[j];
  }

  lemma MethodStep(l: Line, d: string)
    ensures l.method_.Some? ==> TargetOf(l.header, l.method_, l.uri, d) == PathOf(l.header, l.method_.value, l.uri, d)
    ensures l.method_.Some? && l.version.None? ==> LineOn(l, d) == PathOn(l, d)
    ensures l.method_.None? ==>
      match CutOf(d, ' ', " ")
      case None => TargetOf(l.header, l.method_, l.uri, d) == None && (l.version.None? ==> LineOn(l, d) == Progress(InLine(l), d, false))
      case Some(m) =>
        var next := l.(header := l.header + Taken(d, m), method_ := Some(|l.header| + m.skip));
        && TargetOf(l.header, l.method_, l.uri, d) == PathOf(next.header, next.method_.value, l.uri, Behind(d, m))
        && (l.version.None? ==> LineOn(l, d) == PathOn(next, Behind(d, m)))
  {
    hide CutOf, Taken, Behind, PathOf, PathOn;
  }

  lemma PathStep(l: Line, d: string)
    requires l.method_.Some?
    ensures l.uri.Some? ==>
      && PathOf(l.header, l.method_.value, l.uri, d) == Some(Target(l.header, l.method_.value, l.uri.value, d))
      && (l.version.None? ==> PathOn(l, d) == QueryOn(l, d))
    ensures l.uri.None? ==>
      match CutOf(d, ' ', "? ")
      case None => PathOf(l.header, l.method_.value, l.uri, d) == None && (l.version.None? ==> PathOn(l, d) == Progress(InLine(l), d, false))
      case Some(u) =>
        var next := l.(header := l.header + Taken(d, u), uri := Some(|l.header| + u.skip));
        var rest := if d[u.end] == '?' then d[u.end..] else Behind(d, u);
        && PathOf(l.header, l.method_.value, l.uri, d) == Some(Target(next.header, l.method_.value, next.uri.value, rest))
        && (l.version.None? ==> PathOn(l, d) == QueryOn(next, rest))
  {
    hide CutOf, Taken, Behind, QueryOn;
  }

  /** `get_chunk`: a part of the input copied to the target, the stop character replaced by a string end. */
  method GetChunk(buffer: string, p: nat, prefix: char, stops: string, target: AutoBuffer<char>, before: nat)
    returns (found: bool, reference: nat, chunkSize: nat)
    requires p <= |buffer| && target.Valid()
    modifies target, target.buffer
    ensures target.Valid() && (target.buffer == old(target.buffer) || fresh(target.buffer))
    ensures found <==> CutOf(buffer[p..], prefix, stops).Some?
    ensures !found ==> chunkSize == before && target.Contents() == old(target.Contents()) && target.buffer == old(target.buffer)
    ensures found ==>
      var c := CutOf(buffer[p..], prefix, stops).value;
      && target.Contents() == old(target.Contents()) + Taken(buffer[p..], c)
      && reference == |old(target.Contents())| + c.skip && chunkSize == c.end + 1 && p + chunkSize <= |buffer|
  {
    hide Taken, Skip, StopAt;
    ghost var d := buffer[p..];
    reference, chunkSize := 0, before;
    var n := |buffer| - p;
    var s := 0;
    SkipStart(d, prefix);
    while s < n && buffer[p + s] == prefix
      invariant s <= n && Skip(d, prefix) == s + Skip(d[s..], prefix)
      invariant unchanged(target) && unchanged(target.buffer)
    {
      SkipStep(d, s, prefix);
      s := s + 1;
    }
    if s < n { assert d[s] == buffer[p + s]; }
    SkipEnd(d, s, prefix);
    var k := s;
    while k < n
      invariant s <= k <= n && StopAt(d, k, stops) == StopAt(d, s, stops)
      invariant unchanged(target) && unchanged(target.buffer)
    {
      assert d[k] == buffer[p + k];
      StopStep(d, k, stops);
      if buffer[p + k] in stops {
        CopyChunk(buffer, p, k, target, Cut(s, k));
        chunkSize, reference := k + 1, target.readyPosition - (k + 1) + s;
        return true, reference, chunkSize;
      }
      k := k + 1;
    }
    StopStep(d, n, stops);
    found := false;
  }

  /** The part and its stop character copied, and the latter replaced. */
  method CopyChunk(buffer: string, p: nat, k: nat, target: AutoBuffer<char>, ghost c: Cut)
    requires p + k < |buffer| && target.Valid() && c.end == k
    modifies target, target.buffer
    ensures target.Valid() && (target.buffer == old(target.buffer) || fresh(target.buffer))
    ensures target.Contents() == old(target.Contents()) + Taken(buffer[p..], c)
    ensures target.readyPosition == old(target.readyPosition) + k + 1
  {
    var t := target.readyPosition;
    ghost var was := target.Contents();
    target.Append(buffer[p..p + (k + 1)]);
    target.buffer[t + k] := NUL;
    EndMarked(was, buffer[p..], k, target.Contents());
  }

  lemma SkipStart(d: string, prefix: char)
    ensures Skip(d, prefix) == 0 + Skip(d[0..], prefix)
  {
    assert d[0..] == d;
  }

  lemma SkipStep(d: string, s: nat, prefix: char)
    requires s < |d| && d[s] == prefix
    ensures Skip(d[s..], prefix) == 1 + Skip(d[s + 1..], prefix)
  {
    assert d[s..][1..] == d[s + 1..];
  }

  lemma SkipEnd(d: string, s: nat, prefix: char)
    requires s <= |d| && (s < |d| ==> d[s] != prefix)
    ensures Skip(d[s..], prefix) == 0
  {
  }

  lemma StopStep(d: string, k: nat, stops: string)
    requires k <= |d|
    ensures k < |d| && d[k] !in stops ==> StopAt(d, k, stops) == StopAt(d, k + 1, stops)
    ensures k == |d| || d[k] in stops ==> StopAt(d, k, stops) == k
  {
  }

  /** The second character of a line end, or the first one of a bare one. */
  method PassEol(buffer: string, start: nat, before: nat) returns (p: nat, chunkSize: nat)
    requires start <= |buffer|
    ensures start <= p <= |buffer| && chunkSize == before + (p - start) && buffer[p..] == DropEol(buffer[start..])
  {
    p, chunkSize := start, before;
    if 0 < |buffer| - p && (buffer[p] == CR || buffer[p] == LF) {
      p, chunkSize := p + 1, chunkSize + 1;
    }
  }

  lemma TakenEnds(d: string, c: Cut)
    requires c.end < |d|
    ensures Taken(d, c) != [] && Taken(d, c)[|Taken(d, c)| - 1] == NUL
  {
  }

  // What the functions on texts come to, step by step

  lemma EndMarked(was: string, d: string, k: nat, now: string)
    requires k < |d| && |now| == |was| + k + 1
    requires now == (was + d[..k + 1])[|was| + k := NUL]
    ensures now == was + Taken(d, Cut(0, k))
    ensures forall s | 0 <= s <= k :: Taken(d, Cut(s, k)) == Taken(d, Cut(0, k))
  {
  }

  /** The body is as long as the header says, or there is none. */
  predicate Bounded(r: Request) {
    |r.body| < NPOS && (LengthOf(r.fields) == |r.body| || (LengthOf(r.fields) == NPOS && r.body == ""))
  }

  function FindField(fs: seq<Field>, key: string): Option<string> {
    if fs == [] then None else if SameButCase(key, fs[0].name) then Some(fs[0].value) else FindField(fs[1..], key)
  }

  predicate FormRequest(r: Request) {
    var v := FindField(r.fields, CONTENT_TYPE);
    v.Some? && FindSub(v.value, FORM, false)
  }

  /** Looking up offsets finds what looking up the fields finds, except for cookies. */
  lemma {:induction false} HeaderFound(header: string, fields: seq<(nat, nat)>, fs: seq<Field>, key: string)
    requires |fields| == |fs| && !SameButCase(key, "Cookie")
    requires forall i | 0 <= i < |fs| ::
      && fields[i].0 <= |header| && fields[i].1 <= |header| && CString(header, fields[i].0) == fs[i].name
      && (fs[i].name != COOKIE ==> CString(header, fields[i].1) == fs[i].value)
    ensures forall f | f in fields :: f.0 <= |header| && f.1 <= |header|
    ensures HeaderValue(header, fields, key) == FindField(fs, key)
  {
    hide SameFolded, SameButCase, CString;
    if fs != [] {
      FoldedExactly(key, CString(header, fields[0].0));
      forall i | 0 <= i < |fs[1..]|
        ensures fields[1..][i].0 <= |header| && fields[1..][i].1 <= |header| && CString(header, fields[1..][i].0) == fs[1..][i].name
        ensures fs[1..][i].name != COOKIE ==> CString(header, fields[1..][i].1) == fs[1..][i].value
      {
        assert fields[1..][i] == fields[i + 1] && fs[1..][i] == fs[i + 1];
      }
      HeaderFound(header, fields[1..], fs[1..], key);
    }
  }

  /** It is a form if the first field of that name, in whatever case, says so outside of quotes. */
  lemma {:induction false} FormExactly(r: Request, i: nat)
    requires i <= |r.fields| && (forall j | 0 <= j < i :: !SameButCase("Content-Type", r.fields[j].name))
    requires i < |r.fields| ==> SameButCase("Content-Type", r.fields[i].name)
    ensures FormRequest(r) <==> i < |r.fields| && OutsideQuotes(r.fields[i].value, "application/x-www-form-urlencoded", false)
  {
    hide SameButCase, FindSub, OutsideQuotes;
    FirstField(r.fields, "Content-Type", i);
    if i < |r.fields| { FindSubExactly(r.fields[i].value, "application/x-www-form-urlencoded", false); }
  }

  lemma {:induction false} FirstField(fs: seq<Field>, key: string, i: nat)
    requires i <= |fs| && (forall j | 0 <= j < i :: !SameButCase(key, fs[j].name)) && (i < |fs| ==> SameButCase(key, fs[i].name))
    ensures FindField(fs, key) == if i < |fs| then Some(fs[i].value) else None
  {
    hide SameButCase;
    if i > 0 {
      forall j | 0 <= j < i - 1 ensures !SameButCase(key, fs[1..][j].name) { assert fs[1..][j] == fs[j + 1]; }
      FirstField(fs[1..], key, i - 1);
    }
  }

  /** What is parsed for parameters in the end: the query, with a form put behind it. */
  function SentParams(r: Request): string {
    var query := if r.query.Some? then r.query.value + [NUL] else "";
    if FormRequest(r) && r.body != "" then Merged(query, r.body) else query
  }

  /** Once the body is there, the parameters are those sent with it. */
  lemma {:induction false} RequestFinished(r: Request, doc: Doc)
    requires FieldsRead(doc, r.fields) && doc.length == LengthOf(r.fields) && BodyDone(doc, r.body)
    requires doc.params == if r.query.Some? then r.query.value + [NUL] else ""
    ensures FieldsInside(doc) && ParamsWith(doc, r.body) == SentParams(r.(body := r.body[..BodySize(doc, r.body)]))
  {
    hide CString, FindSub, Merged, LengthOf;
    HeaderFound(doc.header, doc.fields, r.fields, CONTENT_TYPE);
  }

  /** When the body is as long as the length says. */
  lemma BodyForms(doc: Doc, rest: string)
    ensures doc.length == |rest| < NPOS || (doc.length == NPOS && rest == "") ==> BodyDone(doc, rest) && BodySize(doc, rest) == |rest|
  {
  }

  // Forms

  const NOTHING := Entry("", None)

  /** The entries of a form behind those of the query; an empty last entry of the query goes. */
  function FormEntries(es: seq<Entry>, form: seq<Entry>): seq<Entry>
    requires es != []
  {
    (if es[|es| - 1] == NOTHING then es[..|es| - 1] else es) + form
  }

  /** A printed form in a printed request comes to one printed list. */
  lemma {:induction false} FormPrinted(r: Request, es: seq<Entry>, form: seq<Entry>)
    requires FormRequest(r) && r.body != "" && form != [] && r.body + [NUL] == PrintEntries(form, '&')
    requires r.query.Some? ==> es != [] && r.query.value + [NUL] == PrintEntries(es, '&') && forall e | e in es :: EntryOk(e, '&')
    ensures SentParams(r) == PrintEntries(if r.query.Some? then FormEntries(es, form) else form, '&')
  {
    hide PrintEntries, FormRequest;
    if r.query.Some? {
      MergedPrinted(r.query.value, es, r.body, form);
    } else {
      assert "" + r.body + [NUL] == r.body + [NUL];
    }
  }

  lemma {:induction false} MergedPrinted(query: string, es: seq<Entry>, body: string, form: seq<Entry>)
    requires es != [] && query + [NUL] == PrintEntries(es, '&') && forall e | e in es :: EntryOk(e, '&')
    requires form != [] && body + [NUL] == PrintEntries(form, '&')
    ensures Merged(query + [NUL], body) == PrintEntries(FormEntries(es, form), '&')
  {
    hide PrintEntries, EntryOk;
    var n, params := |es| - 1, query + [NUL];
    LastPrinted(es);
    if es[n] == NOTHING {
      if n == 0 {
        assert query == "" && params[..0] == "" && es[..0] + form == form;
        assert "" + body + [NUL] == body + [NUL];
      } else {
        var front := PrintEntries(es[..n], '&');
        PrintJoined(es[..n], form, '&');
        assert params == front[..|front| - 1] + ['&'] + [NUL];
        assert params[|params| - 2] == '&' && params[..|params| - 1] == front[..|front| - 1] + ['&'];
        assert front[..|front| - 1] + ['&'] + (body + [NUL]) == front[..|front| - 1] + ['&'] + body + [NUL];
      }
    } else {
      PrintJoined(es, form, '&');
      assert params[..|params| - 1] == query && params[|params| - 1 := '&'] == query + ['&'];
      assert query + ['&'] + (body + [NUL]) == query + ['&'] + body + [NUL];
    }
  }

  /** Two printed lists joined: a divider in place of the first one's end. */
  lemma {:induction false} PrintJoined(es: seq<Entry>, form: seq<Entry>, div: char)
    requires es != [] && form != []
    ensures var front := PrintEntries(es, div);
      front != [] && PrintEntries(es + form, div) == front[..|front| - 1] + [div] + PrintEntries(form, div)
  {
    var front := PrintEntries(es, div);
    if |es| == 1 {
      assert (es + form)[1..] == form && front[..|front| - 1] == PrintEntry(es[0]);
      assert PrintEntry(es[0]) + ([div] + PrintEntries(form, div)) == PrintEntry(es[0]) + [div] + PrintEntries(form, div);
    } else {
      PrintJoined(es[1..], form, div);
      var rest := PrintEntries(es[1..], div);
      assert (es + form)[1..] == es[1..] + form;
      assert front == PrintEntry(es[0]) + [div] + rest && front[..|front| - 1] == PrintEntry(es[0]) + [div] + rest[..|rest| - 1];
    }
  }

  /** How a printed list ends: with a divider, if and only if there is an empty entry behind it. */
  lemma {:induction false} LastPrinted(es: seq<Entry>)
    requires es != [] && forall e | e in es :: EntryOk(e, '&')
    ensures var text, n := PrintEntries(es, '&'), |es| - 1;
      && text[|text| - 1] == NUL
      && (es[n] == NOTHING && n == 0 ==> |text| == 1)
      && (es[n] == NOTHING && n > 0 ==>
            var front := PrintEntries(es[..n], '&');
            front != [] && text == front[..|front| - 1] + ['&'] + [NUL])
      && (es[n] != NOTHING ==> |text| > 1 && text[|text| - 2] != '&')
  {
    var n := |es| - 1;
    var last := [es[n]];
    assert EntryOk(es[n], '&') && es == es[..n] + last;
    OnePrinted(es[n]);
    if n > 0 { PrintJoined(es[..n], last, '&'); }
  }

  lemma OnePrinted(e: Entry)
    requires EntryOk(e, '&')
    ensures var text := PrintEntries([e], '&');
      && text == PrintEntry(e) + [NUL]
      && (e == NOTHING ==> PrintEntry(e) == "")
      && (e != NOTHING ==> PrintEntry(e) != "" && PrintEntry(e)[|PrintEntry(e)| - 1] != '&')
  {
    if e.value.Some? {
      if e.value.value != "" { assert e.value.value[|e.value.value| - 1] in e.value.value; }
    } else if e.key != "" {
      assert e.key[|e.key| - 1] in e.key;
    }
  }

  lemma NotShifted(pairs: seq<Pair>)
    ensures Shifted(pairs, 0) == pairs
  {
  }

  lemma MergedEnds(params: string, body: string)
    ensures Merged(params, body) != [] && Merged(params, body)[|Merged(params, body)| - 1] == NUL
  {
  }

  lemma TakenSize(d: string, c: Cut)
    requires c.skip <= c.end < |d|
    ensures |Taken(d, c)| == c.end + 1 > c.skip && Taken(d, c)[c.end] == NUL
  {
  }

  lemma AddFieldForm(doc: Doc, keyText: string, keySkip: nat, valueText: string, valueSkip: nat)
    requires keySkip <= |keyText| && valueSkip <= |valueText|
    ensures var header, keyAt, valueAt := doc.header + keyText + valueText, |doc.header| + keySkip, |doc.header + keyText| + valueSkip;
      var next := AddField(doc, keyText, keySkip, valueText, valueSkip);
      && next.fields == doc.fields + [(keyAt, valueAt)] && next.params == doc.params
      && next.method_ == doc.method_ && next.uri == doc.uri && next.version == doc.version
      && if doc.length == NPOS && CString(header, keyAt) == CONTENT_LENGTH then
           next.length == ToSize(Atoi(CString(header, valueAt))) && next.header == header && next.cookies == doc.cookies
         else if CString(header, keyAt) == COOKIE then
           var r := Scan(header[valueAt..], 0, 0, None, ';', true);
           next.length == doc.length && next.header == header[..valueAt] + r.text && next.cookies == doc.cookies + Shifted(r.pairs, valueAt)
         else next.length == doc.length && next.header == header && next.cookies == doc.cookies
  {
    hide CString, Scan, ToSize, Atoi;
  }
}
