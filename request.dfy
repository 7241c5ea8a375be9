/** The incremental request parser of internal/request/request.go: a request-line
    validator, a forward-only parse state machine, and the driver that feeds it from
    a growable buffer filled by successive reads. */
module Request {
  import opened Text
  import opened Headers
  import opened Reader

  /** `RequestState`, in the order the parser moves through it. */
  datatype RequestState = Initialised | ParsingHeaders | ParsingBody | Done

  function Rank(s: RequestState): nat {
    match s
    case Initialised => 0
    case ParsingHeaders => 1
    case ParsingBody => 2
    case Done => 3
  }

  datatype RequestLine = RequestLine(httpMethod: string, httpVersion: string, target: string)

  const EmptyLine: RequestLine := RequestLine("", "", "")

  /** `allowedMethods`, spelled as the source spells it: `DETELE`, not `DELETE`. */
  const AllowedMethods: seq<string> := ["GET", "POST", "PUT", "DETELE", "PATCH"]

  /** The protocol name and the one version `parseRequestLine` accepts. */
  const Protocol: string := "HTTP"
  const SupportedVersion: string := "1.1"

  /** The last word of a request line: `HTTP/` and the version. */
  function VersionField(version: string): string {
    Protocol + "/" + version
  }

  /** What `parseRequestLine` accepts: a listed method, version 1.1, and a target
      holding no space, CR or LF. Nothing more is asked of the target. */
  predicate ValidRequestLine(l: RequestLine) {
    && l.httpMethod in AllowedMethods
    && l.httpVersion == SupportedVersion
    && ' ' !in l.target && '\r' !in l.target && '\n' !in l.target
  }

  /** The request line `METHOD SP TARGET SP HTTP/VERSION` of section 3 of RFC 9112,
      without its CR LF. */
  function LineText(l: RequestLine): string {
    l.httpMethod + " " + l.target + " " + VersionField(l.httpVersion)
  }

  /** The request line written out with its CR LF. */
  function FormatRequestLine(l: RequestLine): string {
    LineText(l) + CRLF
  }

  /** What `parseRequestLine` returns: (nil, 0, nil), an error, or the line and the
      number of bytes it took. */
  datatype LineParse = NeedMore | Malformed | Parsed(line: RequestLine, consumed: nat)

  /** The version check of `parseRequestLine`: split at `/`, exactly two parts,
      the first `HTTP`, the second `1.1`. */
  function ParseVersion(field: string): (r: Option<string>)
    ensures r.Some? ==> r.value == SupportedVersion && field == VersionField(r.value)
  {
    var v := Split(field, '/');
    if |v| != 2 then
      None
    else if v[0] != Protocol then
      None
    else if v[1] != SupportedVersion then
      None
    else
      assert v == [v[0], v[1]];
      JoinTwo(v[0], v[1], '/');
      Some(v[1])
  }

  /** The version check accepts `HTTP/1.1` and nothing else. */
  lemma VersionAccepts(field: string)
    ensures ParseVersion(field).Some? <==> field == VersionField(SupportedVersion)
  {
    if field == VersionField(SupportedVersion) {
      JoinTwo(Protocol, SupportedVersion, '/');
      assert '/' !in Protocol && '/' !in SupportedVersion;
      SplitJoin([Protocol, SupportedVersion], '/');
    }
  }

  /** The checks `parseRequestLine` makes on the line once its CR LF is cut off. */
  function ParseWords(msg: string): (r: Option<RequestLine>)
    ensures r.Some? ==> ValidRequestLine(r.value) && LineText(r.value) == msg
  {
    var parts := Split(msg, ' ');
    if |parts| != 3 then
      None
    else
      match ParseVersion(parts[2])
      case None => None
      case Some(version) =>
        if parts[0] !in AllowedMethods then
          None
        else if ' ' in parts[1] || '\n' in parts[1] || '\r' in parts[1] then
          None
        else
          assert parts == [parts[0], parts[1], parts[2]];
          JoinThree(parts[0], parts[1], parts[2], ' ');
          Some(RequestLine(parts[0], version, parts[1]))
  }

  /** `parseRequestLine`. Without a CR LF in the buffer it asks for more. When it
      accepts, the line it returns is a valid one and the consumed bytes are exactly
      that line written out, up to and including the first CR LF. */
  function ParseRequestLine(data: string): (r: LineParse)
    ensures r.NeedMore? <==> NoCrlf(data)
    ensures r.Parsed? ==>
      && ValidRequestLine(r.line)
      && r.consumed == IndexCrlf(data) + 2 <= |data|
      && data[..r.consumed] == FormatRequestLine(r.line)
  {
    var end := IndexCrlf(data);
    if end == -1 then
      NeedMore
    else
      match ParseWords(data[..end])
      case None => Malformed
      case Some(l) =>
        CrlfSlice(data, end);
        Parsed(l, end + 2)
  }

  /** No listed method holds a space, CR or LF. */
  lemma MethodsAreTokens(m: string)
    requires m in AllowedMethods
    ensures ' ' !in m && '\r' !in m && '\n' !in m
  {
  }

  /** Three space-free words joined by spaces are accepted exactly when the first
      is a listed method, the last is `HTTP/1.1` and the middle one holds no CR or
      LF; the line accepted is made of those words. */
  lemma {:induction false} RequestLineWords(m: string, t: string, v: string)
    requires ' ' !in m && ' ' !in t && ' ' !in v
    ensures var r := ParseWords(m + " " + t + " " + v);
      && (r.Some? <==> m in AllowedMethods && v == VersionField(SupportedVersion) && '\r' !in t && '\n' !in t)
      && (r.Some? ==> r.value == RequestLine(m, SupportedVersion, t))
  {
    JoinThree(m, t, v, ' ');
    SplitJoin([m, t, v], ' ');
    VersionAccepts(v);
  }

  /** Request lines whose parts hold no space are read back exactly when they are
      valid, and then as themselves. */
  lemma ParseWordsIff(l: RequestLine)
    requires ' ' !in l.httpMethod && ' ' !in l.target && ' ' !in l.httpVersion
    ensures ParseWords(LineText(l)) == if ValidRequestLine(l) then Some(l) else None
  {
    var v := VersionField(l.httpVersion);
    assert ' ' !in v;
    RequestLineWords(l.httpMethod, l.target, v);
    if v == VersionField(SupportedVersion) {
      assert l.httpVersion == v[|Protocol| + 1..];
    }
  }

  /** The parser accepts every valid request line written out, and returns that
      very line, consuming it and nothing after it. */
  lemma {:induction false} ParseFormattedRequestLine(l: RequestLine, rest: string)
    requires ValidRequestLine(l)
    ensures ParseRequestLine(FormatRequestLine(l) + rest) == Parsed(l, |FormatRequestLine(l)|)
  {
    var msg := LineText(l);
    MethodsAreTokens(l.httpMethod);
    var v := VersionField(l.httpVersion);
    assert ' ' !in v && '\r' !in v;
    RequestLineWords(l.httpMethod, l.target, v);
    assert '\r' !in msg;
    NoCrNoCrlf(msg);
    CrlfAfter(msg, rest);
  }

  /** Every proper prefix of a valid request line written out lacks a CR LF: the
      parser asks for more until the whole line is in. */
  lemma LinePrefixNoCrlf(l: RequestLine, k: nat)
    requires ValidRequestLine(l) && k < |FormatRequestLine(l)|
    ensures NoCrlf(FormatRequestLine(l)[..k])
  {
    var msg := LineText(l);
    var prefix := FormatRequestLine(l)[..k];
    MethodsAreTokens(l.httpMethod);
    assert '\r' !in VersionField(l.httpVersion);
    assert '\r' !in msg;
    forall i | 0 <= i < k ensures !CrlfAt(prefix, i) {
      if i < |msg| {
        assert prefix[i] == msg[i] && msg[i] in msg;
      }
    }
  }

  /** Two valid request lines that write out the same are the same line. */
  lemma FormatRequestLineInjective(a: RequestLine, b: RequestLine)
    requires ValidRequestLine(a) && ValidRequestLine(b)
    requires FormatRequestLine(a) == FormatRequestLine(b)
    ensures a == b
  {
    ParseFormattedRequestLine(a, "");
    ParseFormattedRequestLine(b, "");
    assert FormatRequestLine(a) + "" == FormatRequestLine(b) + "";
  }

  /** What the parser rejects: a line up to the first CR LF that is not any valid
      request line written out. */
  lemma MalformedRequestLine(data: string, l: RequestLine)
    requires ParseRequestLine(data).Malformed?
    requires ValidRequestLine(l)
    ensures var end := IndexCrlf(data);
      end != -1 && data[..end + 2] != FormatRequestLine(l)
  {
    var end := IndexCrlf(data);
    if data[..end + 2] == FormatRequestLine(l) {
      assert data == FormatRequestLine(l) + data[end + 2..];
      ParseFormattedRequestLine(l, data[end + 2..]);
    }
  }

  /** The method list as written: a line with `DETELE` is accepted, and is the
      line returned. */
  lemma DeteleAccepted()
    ensures var l := RequestLine("DETELE", "1.1", "/coffee");
      ParseRequestLine(FormatRequestLine(l)) == Parsed(l, |FormatRequestLine(l)|)
  {
    var l := RequestLine("DETELE", "1.1", "/coffee");
    assert AllowedMethods[3] == "DETELE";
    ParseFormattedRequestLine(l, "");
    assert FormatRequestLine(l) + "" == FormatRequestLine(l);
  }

  lemma DeleteNotListed()
    ensures "DELETE" !in AllowedMethods
  {
    assert forall w <- AllowedMethods :: |w| != 6 || w[2] != 'L';
  }

  /** The correctly spelled `DELETE` is refused. */
  lemma DeleteRejected()
    ensures ParseWords(LineText(RequestLine("DELETE", "1.1", "/coffee"))).None?
  {
    DeleteNotListed();
    ParseWordsIff(RequestLine("DELETE", "1.1", "/coffee"));
  }

  /** Nothing is asked of the target beyond having no white space: a bare `*` is
      accepted. */
  lemma AsteriskTargetAccepted()
    ensures var l := RequestLine("POST", "1.1", "*");
      ParseRequestLine(FormatRequestLine(l)) == Parsed(l, |FormatRequestLine(l)|)
  {
    var l := RequestLine("POST", "1.1", "*");
    assert AllowedMethods[1] == "POST";
    ParseFormattedRequestLine(l, "");
    assert FormatRequestLine(l) + "" == FormatRequestLine(l);
  }

  /** The fields of a `Request` that `parse` reads and writes, as one value. */
  datatype Parser = Parser(
    line: RequestLine,
    fields: Fields,
    state: RequestState,
    body: string,
    reportedLen: int,
    totalBodyParsed: int)

  /** What a fresh `Request` holds before its first `parse`. */
  const Initial: Parser := Parser(EmptyLine, map[], Initialised, [], 0, 0)

  /** What one call of `parse` returns (bytes consumed, whether it failed) and the
      request it leaves behind. */
  datatype StepResult = StepResult(consumed: nat, failed: bool, next: Parser)

  /** `Request.parse`: one step of the state machine on the unparsed bytes `data`.
      The state only moves forward, a failure leaves it where it was, the request
      line is set once, and a finished request accepts nothing more. */
  function Step(p: Parser, data: string): (r: StepResult)
    ensures Rank(p.state) <= Rank(r.next.state) <= Rank(p.state) + 1
    ensures r.failed ==> r.next.state == p.state
    ensures p.state != Initialised ==> r.next.line == p.line
    ensures p.state == Done ==> r.failed && r.consumed == 0 && r.next == p
  {
    match p.state
    case Initialised =>
      (match ParseRequestLine(data)
       case NeedMore => StepResult(0, false, p)
       case Malformed => StepResult(0, true, p)
       case Parsed(l, n) => StepResult(n, false, p.(line := l, state := ParsingHeaders)))
    case ParsingHeaders =>
      var h := ParseLine(p.fields, data);
      var q := p.(fields := h.fields);
      if h.failed then StepResult(h.consumed, true, q)
      else if h.consumed == 0 then StepResult(0, false, q)
      else if h.done then StepResult(h.consumed, false, q.(state := ParsingBody))
      else StepResult(h.consumed, false, q)
    case ParsingBody =>
      var got := Lookup(p.fields, ContentLength);
      if !got.1 then
        StepResult(|p.body|, false, p.(state := Done, reportedLen := 0))
      else
        (match Atoi(got.0)
         case None => StepResult(0, true, p)
         case Some(len) =>
           var body := p.body + data;
           var q := p.(reportedLen := len, body := body);
           if |body| > len then StepResult(|body|, true, q)
           else if |body| == len then StepResult(|data|, false, q.(state := Done))
           else StepResult(|data|, false, q.(totalBodyParsed := p.totalBodyParsed + |data|)))
    case Done => StepResult(0, true, p)
  }

  /** What holds of a request between calls of `parse`: the request line is set
      exactly once the first state is left, the stored keys are valid lower-case
      keys, there is no body before the headers end, a body is only collected under
      a well-formed `content-length`, and it never outgrows that length. */
  predicate Inv(p: Parser) {
    && (p.state == Initialised ==> p.line == EmptyLine && p.fields == map[])
    && (p.line == EmptyLine || ValidRequestLine(p.line))
    && (p.state == ParsingHeaders || p.state == ParsingBody ==> ValidRequestLine(p.line))
    && ValidFields(p.fields)
    && (Rank(p.state) < 2 ==> p.body == [] && p.reportedLen == 0 && p.totalBodyParsed == 0)
    && (p.reportedLen != 0 || p.body != [] ==>
          var got := Lookup(p.fields, ContentLength);
          got.1 && Atoi(got.0) == Some(p.reportedLen))
    && |p.body| <= p.reportedLen
    && (p.state == ParsingBody ==> p.totalBodyParsed == |p.body|)
    && 0 <= p.totalBodyParsed <= |p.body|
  }

  lemma InitialInv()
    ensures Inv(Initial)
  {
  }

  /** Every step that does not fail keeps the invariant and consumes no more than
      it was given. */
  lemma StepKeepsInvariant(p: Parser, data: string)
    requires Inv(p)
    ensures var r := Step(p, data);
      !r.failed ==> r.consumed <= |data| && Inv(r.next)
  {
    var r := Step(p, data);
    match p.state
    case Initialised =>
    case ParsingHeaders =>
      ParseLinePreservesValid(p.fields, data);
    case ParsingBody =>
    case Done =>
  }

  /** Before the headers end, a step without a complete line in the buffer waits:
      it consumes nothing, does not fail and changes nothing; and only then. */
  lemma StepWaitsForLine(p: Parser, data: string)
    requires Inv(p)
    requires p.state == Initialised || p.state == ParsingHeaders
    ensures Step(p, data) == StepResult(0, false, p) <==> NoCrlf(data)
  {
    if p.state == ParsingHeaders {
      ParseLineNeedsMore(p.fields, data);
    }
  }

  /** Under a `content-length` of `n`, the body step appends what it is given and
      consumes all of it; it fails exactly when the body would outgrow `n`, and it
      finishes the request exactly when the body reaches `n`. */
  lemma StepBody(p: Parser, data: string, n: int)
    requires p.state == ParsingBody
    requires Lookup(p.fields, ContentLength).1 && Atoi(Lookup(p.fields, ContentLength).0) == Some(n)
    ensures var r := Step(p, data);
      && (r.failed <==> |p.body| + |data| > n)
      && (!r.failed ==> r.consumed == |data| && r.next.body == p.body + data && r.next.reportedLen == n)
      && (!r.failed ==> (r.next.state == Done <==> |p.body| + |data| == n))
  {
  }

  /** Without a `content-length` the body step finishes the request with an empty
      body and leaves whatever follows the headers unread. */
  lemma StepNoContentLength(p: Parser, data: string)
    requires Inv(p) && p.state == ParsingBody
    requires !Lookup(p.fields, ContentLength).1
    ensures var r := Step(p, data);
      && !r.failed && r.consumed == 0
      && r.next.state == Done && r.next.body == [] && r.next.reportedLen == 0
  {
  }

  /** A `content-length` that `Atoi` rejects makes the body step fail without
      consuming anything or changing the request. */
  lemma StepBadContentLength(p: Parser, data: string)
    requires p.state == ParsingBody
    requires Lookup(p.fields, ContentLength).1 && Atoi(Lookup(p.fields, ContentLength).0).None?
    ensures Step(p, data) == StepResult(0, true, p)
  {
  }

  /** The lookahead that ends the header block does not consume the blank line:
      when a field line and the blank line arrive together, the step takes the
      field line alone and moves on to the body, leaving CR LF in the buffer. */
  lemma BlankLineLeftInBuffer(p: Parser, name: string, value: string, rest: string)
    requires Inv(p) && p.state == ParsingHeaders
    requires FieldName(name) && FieldValue(value)
    ensures var r := Step(p, FieldLine(name, value) + CRLF + rest);
      && !r.failed && r.consumed == |FieldLine(name, value)|
      && r.next.state == ParsingBody
  {
    var data := FieldLine(name, value) + CRLF + rest;
    assert data == FieldLine(name, value) + (CRLF + rest);
    var h := ParseLine(p.fields, data);
    assert !h.failed && h.done && h.consumed == |FieldLine(name, value)| by {
      ParseFieldLine(p.fields, name, value, CRLF + rest);
      assert CrlfAt(CRLF + rest, 0);
    }
  }

  /** Consequently a body of exactly `content-length` bytes that follows the blank
      line in the same buffer is rejected: the body step sees the CR LF first and
      the body comes out two bytes too long. */
  lemma LeftoverBlankLineOverflowsBody(p: Parser, body: string)
    requires Inv(p) && p.state == ParsingBody && p.body == []
    requires Lookup(p.fields, ContentLength).1
    requires Atoi(Lookup(p.fields, ContentLength).0) == Some(|body|)
    ensures Step(p, CRLF + body).failed
  {
    StepBody(p, CRLF + body, |body|);
  }

  /** Where the bytes a step consumes go: the request line takes exactly the line
      written out; the body step appends all it is given; every other step leaves
      the body as it was. */
  lemma StepTakesFromData(p: Parser, data: string)
    requires Inv(p)
    ensures var r := Step(p, data);
      && (r.next.state == Initialised ==> r.consumed == 0)
      && (p.state == Initialised && r.next.state == ParsingHeaders ==>
            r.consumed <= |data| && data[..r.consumed] == FormatRequestLine(r.next.line))
      && (!r.failed ==>
            || r.next.body == p.body
            || (p.state == ParsingBody && r.next.body == p.body + data && r.consumed == |data|))
  {
  }

  /** The Go type `Request`. Its header map is a reference, shared with nothing
      else, that `parse` fills in place. */
  class Request {
    var line: RequestLine
    const headers: Headers
    var state: RequestState
    var body: string
    var reportedContentLen: int
    var totalBodyParsed: int

    /** `&Request{State: requestStateInitialised, Headers: headers.NewHeaders()}`. */
    constructor ()
      ensures View() == Initial && fresh(headers)
    {
      line := EmptyLine;
      headers := new Headers();
      state := Initialised;
      body := [];
      reportedContentLen := 0;
      totalBodyParsed := 0;
    }

    /** The request's fields as one value. */
    function View(): Parser
      reads this, headers
    {
      Parser(line, headers.entries, state, body, reportedContentLen, totalBodyParsed)
    }

    /** `Request.parse`: one step of the state machine, in place. */
    method Parse(data: string) returns (n: nat, failed: bool)
      modifies this, headers
      ensures StepResult(n, failed, View()) == Step(old(View()), data)
    {
      match state
      case Initialised =>
        var lp := ParseRequestLine(data);
        match lp {
          case NeedMore =>
            return 0, false;
          case Malformed =>
            return 0, true;
          case Parsed(l, k) =>
            line := l;
            state := ParsingHeaders;
            return k, false;
        }
      case ParsingHeaders =>
        var k, done, err := headers.Parse(data);
        if err {
          return k, true;
        }
        if k == 0 {
          return 0, false;
        }
        if done {
          state := ParsingBody;
        }
        return k, false;
      case ParsingBody =>
        var got := headers.Get(ContentLength);
        if !got.1 {
          state := Done;
          reportedContentLen := 0;
          return |body|, false;
        }
        var len := Atoi(got.0);
        if len.None? {
          return 0, true;
        }
        reportedContentLen := len.value;
        body := body + data;
        if |body| > len.value {
          return |body|, true;
        }
        if |body| == len.value {
          state := Done;
          return |data|, false;
        }
        totalBodyParsed := totalBodyParsed + |data|;
        return |data|, false;
      case Done =>
        return 0, true;
    }
  }

  /** `make([]byte, len(buffer)*2)` followed by `copy(newSlice, buffer)`: a fresh
      buffer twice as long that starts with the old one and is zero after it. */
  method Grow(buffer: array<char>) returns (b: array<char>)
    ensures fresh(b) && b.Length == 2 * buffer.Length
    ensures b[..buffer.Length] == buffer[..]
    ensures forall i :: buffer.Length <= i < b.Length ==> b[i] == '\0'
  {
    b := new char[2 * buffer.Length](_ => '\0');
    var i := 0;
    while i < buffer.Length
      invariant 0 <= i <= buffer.Length
      invariant b[..i] == buffer[..i]
      invariant forall j :: buffer.Length <= j < b.Length ==> b[j] == '\0'
    {
      b[i] := buffer[i];
      i := i + 1;
    }
  }

  /** `copy(buffer, buffer[k:])`: the bytes from `k` on move to the front; the last
      `k` bytes stay as they were. */
  method ShiftLeft(buffer: array<char>, k: int)
    requires 0 <= k <= buffer.Length
    modifies buffer
    ensures buffer[..buffer.Length - k] == old(buffer[k..])
    ensures buffer[buffer.Length - k..] == old(buffer[buffer.Length - k..])
  {
    var i := 0;
    while i < buffer.Length - k
      invariant 0 <= i <= buffer.Length - k
      invariant forall j :: 0 <= j < i ==> buffer[j] == old(buffer[j + k])
      invariant forall j :: i <= j < buffer.Length ==> buffer[j] == old(buffer[j])
    {
      buffer[i] := buffer[i + k];
      i := i + 1;
    }
  }

  /** The read at the top of the loop of `RequestFromReader`: double the buffer
      when it is full, then read into the free space after the `filled` bytes. The
      bytes already buffered stay, and the bytes read follow them. */
  method FillBuffer(reader: ChunkReader, buffer: array<char>, filled: int, ghost consumed: nat)
    returns (b: array<char>, n: int, eof: bool)
    requires reader.Valid() && 8 <= buffer.Length && 0 <= filled <= buffer.Length
    requires consumed + filled == reader.pos && buffer[..filled] == reader.data[consumed..reader.pos]
    modifies reader, buffer
    ensures reader.Valid()
    ensures b == buffer || fresh(b)
    ensures 8 <= b.Length && filled + n <= b.Length
    ensures b.Length == if filled >= buffer.Length then 2 * buffer.Length else buffer.Length
    ensures eof <==> old(reader.pos) == |reader.data|
    ensures n == Min(Min(reader.numBytesPerRead, |reader.data| - old(reader.pos)), b.Length - filled)
    ensures filled < b.Length
    ensures reader.pos == old(reader.pos) + n
    ensures b[..filled + n] == reader.data[consumed..reader.pos]
  {
    b := buffer;
    if filled >= b.Length {
      b := Grow(b);
    }
    ghost var kept := b[..filled];
    assert kept == old(buffer[..filled]);
    n, eof := reader.Read(b, filled);
    assert b[..filled + n] == b[..filled] + b[filled..filled + n];
    assert reader.data[consumed..reader.pos]
        == reader.data[consumed..old(reader.pos)] + reader.data[old(reader.pos)..reader.pos];
  }

  /** The parse at the bottom of the loop of `RequestFromReader`: one step on the
      `filled` buffered bytes, then, unless it failed, `copy(buffer,
      buffer[n:])` so that the bytes not consumed move to the front. */
  method ParseBuffered(r: Request, buffer: array<char>, filled: int) returns (parsed: nat, failed: bool)
    requires 0 <= filled <= buffer.Length && Inv(r.View())
    modifies r, r.headers, buffer
    ensures StepResult(parsed, failed, r.View()) == Step(old(r.View()), old(buffer[..filled]))
    ensures !failed ==> parsed <= filled && buffer[..filled - parsed] == old(buffer[..filled])[parsed..]
  {
    var data := buffer[..filled];
    StepKeepsInvariant(r.View(), data);
    parsed, failed := r.Parse(data);
    if !failed {
      DropParsed(buffer, filled, parsed);
    }
  }

  /** The `copy` that closes a round of the loop of `RequestFromReader`: the `k`
      bytes that `parse` took leave the front of the buffer, and the `filled - k`
      bytes after them move to its start. */
  method DropParsed(buffer: array<char>, filled: int, k: nat)
    requires k <= filled <= buffer.Length
    modifies buffer
    ensures buffer[..filled - k] == old(buffer[..filled])[k..]
  {
    ghost var whole := buffer[..];
    ShiftLeft(buffer, k);
    assert buffer[..filled - k] == buffer[..buffer.Length - k][..filled - k];
    assert whole[..filled][k..] == whole[k..][..filled - k];
  }

  /** `t` occurs in `s` at offset `i`. */
  predicate RunAt(s: string, i: int, t: string) {
    0 <= i <= |s| - |t| && s[i..i + |t|] == t
  }

  /** How the request built so far relates to the `consumed` bytes of `stream`
      that `parse` has taken: nothing before the request line, the request line
      written out at the front, and the body a run of the stream from `bodyAt`, after
      the request line, that reaches the consumed bytes' end while the body grows. */
  ghost predicate Tracks(stream: string, consumed: nat, bodyAt: nat, p: Parser) {
    && consumed <= |stream|
    && (p.state == Initialised ==> consumed == 0)
    && bodyAt + |p.body| <= consumed
    && (ValidRequestLine(p.line) ==>
          |FormatRequestLine(p.line)| <= bodyAt
          && stream[..|FormatRequestLine(p.line)|] == FormatRequestLine(p.line))
    && (p.state == ParsingBody ==> bodyAt + |p.body| == consumed)
    && RunAt(stream, bodyAt, p.body)
  }

  /** A step on the next unconsumed bytes of the stream keeps `Tracks`, with the
      body's start fixed when the headers end. */
  lemma TracksStep(stream: string, consumed: nat, bodyAt: nat, p: Parser, data: string)
    returns (bodyAt': nat)
    requires Inv(p) && Tracks(stream, consumed, bodyAt, p)
    requires consumed + |data| <= |stream| && data == stream[consumed..consumed + |data|]
    requires !Step(p, data).failed
    ensures Tracks(stream, consumed + Step(p, data).consumed, bodyAt', Step(p, data).next)
  {
    match p.state
    case Initialised =>
      bodyAt' := TracksLine(stream, p, data);
    case ParsingHeaders =>
      bodyAt' := TracksHeaders(stream, consumed, bodyAt, p, data);
    case ParsingBody =>
      TracksBody(stream, consumed, bodyAt, p, data);
      bodyAt' := bodyAt;
  }

  lemma TracksLine(stream: string, p: Parser, data: string) returns (bodyAt': nat)
    requires Inv(p) && p.state == Initialised && Tracks(stream, 0, 0, p)
    requires |data| <= |stream| && data == stream[..|data|]
    requires !Step(p, data).failed
    ensures Tracks(stream, Step(p, data).consumed, bodyAt', Step(p, data).next)
  {
    var r := Step(p, data);
    StepTakesFromData(p, data);
    if r.next.state == ParsingHeaders {
      assert stream[..r.consumed] == data[..r.consumed];
      bodyAt' := r.consumed;
    } else {
      bodyAt' := 0;
    }
  }

  lemma TracksHeaders(stream: string, consumed: nat, bodyAt: nat, p: Parser, data: string)
    returns (bodyAt': nat)
    requires Inv(p) && p.state == ParsingHeaders && Tracks(stream, consumed, bodyAt, p)
    requires consumed + |data| <= |stream|
    requires !Step(p, data).failed
    ensures Tracks(stream, consumed + Step(p, data).consumed, bodyAt', Step(p, data).next)
  {
    var r := Step(p, data);
    StepKeepsInvariant(p, data);
    bodyAt' := if r.next.state == ParsingBody then consumed + r.consumed else bodyAt;
  }

  lemma TracksBody(stream: string, consumed: nat, bodyAt: nat, p: Parser, data: string)
    requires Inv(p) && p.state == ParsingBody && Tracks(stream, consumed, bodyAt, p)
    requires consumed + |data| <= |stream| && data == stream[consumed..consumed + |data|]
    requires !Step(p, data).failed
    ensures Tracks(stream, consumed + Step(p, data).consumed, bodyAt, Step(p, data).next)
  {
    var r := Step(p, data);
    StepTakesFromData(p, data);
    StepKeepsInvariant(p, data);
    var c := consumed + r.consumed;
    if r.next.body != p.body {
      assert stream[bodyAt..c] == stream[bodyAt..consumed] + stream[consumed..c];
    }
  }

  /** End of input ends parsing in any state and keeps the invariant. */
  lemma InvDone(p: Parser)
    requires Inv(p)
    ensures Inv(p.(state := Done))
  {
  }

  /** End of input ends parsing in any state and keeps `Tracks`. */
  lemma TracksDone(stream: string, consumed: nat, bodyAt: nat, p: Parser)
    requires Tracks(stream, consumed, bodyAt, p)
    ensures Tracks(stream, consumed, bodyAt, p.(state := Done))
  {
  }

  /** What `Tracks` says of a request that got a valid request line: the one-shot
      parser reads that very line from the whole stream, and the body is a run of
      the stream after it. */
  lemma TracksResult(stream: string, consumed: nat, bodyAt: nat, p: Parser)
    requires Tracks(stream, consumed, bodyAt, p) && ValidRequestLine(p.line)
    ensures ParseRequestLine(stream) == Parsed(p.line, |FormatRequestLine(p.line)|)
    ensures exists i :: |FormatRequestLine(p.line)| <= i && RunAt(stream, i, p.body)
  {
    var k := |FormatRequestLine(p.line)|;
    assert stream == FormatRequestLine(p.line) + stream[k..];
    ParseFormattedRequestLine(p.line, stream[k..]);
    assert RunAt(stream, bodyAt, p.body);
  }

  /** Where the loop of `RequestFromReader` stands between rounds: the buffer's
      length, how many unparsed bytes it holds, how far the reader has read, and
      the request so far. */
  datatype Config = Config(bufLen: nat, filled: nat, pos: nat, p: Parser)

  /** The loop starts from an empty 8-byte buffer, nothing read, a fresh request. */
  const Start: Config := Config(8, 0, 0, Initial)

  /** A configuration the loop can reach over `stream`: the unparsed bytes are the
      last `filled` bytes read and fit in the buffer, and the request keeps its
      invariant. */
  ghost predicate Fits(stream: string, c: Config) {
    c.pos <= |stream| && c.filled <= c.pos && c.filled <= c.bufLen && 8 <= c.bufLen && Inv(c.p)
  }

  /** The buffer's length once the round has doubled it if it was full. */
  function Grown(c: Config): nat {
    if c.filled >= c.bufLen then 2 * c.bufLen else c.bufLen
  }

  /** How many bytes the round's read delivers: at most `perRead`, no more than
      are left, and no more than the free space after the unparsed bytes. */
  function ReadSize(stream: string, perRead: nat, c: Config): int {
    Min(Min(perRead, |stream| - c.pos), Grown(c) - c.filled)
  }

  /** What the round hands to the step: the unparsed bytes and the new ones. */
  ghost function Window(stream: string, perRead: nat, c: Config): (w: string)
    requires Fits(stream, c)
    ensures |w| == c.filled + ReadSize(stream, perRead, c)
  {
    stream[c.pos - c.filled..c.pos + ReadSize(stream, perRead, c)]
  }

  /** One round of the loop over `stream`, with a reader that hands out at most
      `perRead` bytes a call: double a full buffer and read into its free space;
      at end of input the request is done whatever its state; a read of nothing
      or a failed step aborts (None); otherwise the step sees the unparsed bytes
      and the new ones, and what it does not consume stays buffered. A round that
      does not abort either reads something or ends the request. */
  ghost function Next(stream: string, perRead: nat, c: Config): (r: Option<Config>)
    requires Fits(stream, c)
    ensures r.Some? ==> c.pos < r.value.pos || (c.pos == r.value.pos && r.value.p.state == Done)
    ensures c.pos == |stream| ==> r.Some? && r.value.p == c.p.(state := Done)
    ensures r.None? ==> c.pos < |stream|
    ensures perRead == 0 && c.pos < |stream| ==> r.None?
  {
    if c.pos == |stream| then
      InvDone(c.p);
      Some(c.(bufLen := Grown(c), p := c.p.(state := Done)))
    else if ReadSize(stream, perRead, c) == 0 then
      None
    else
      StepKeepsInvariant(c.p, Window(stream, perRead, c));
      Resume(c, ReadSize(stream, perRead, c), Step(c.p, Window(stream, perRead, c)))
  }

  /** A round that does not abort ends where the loop can be. */
  lemma NextFits(stream: string, perRead: nat, c: Config)
    requires Fits(stream, c)
    ensures Next(stream, perRead, c).Some? ==> Fits(stream, Next(stream, perRead, c).value)
  {
    if c.pos == |stream| {
      InvDone(c.p);
    } else if ReadSize(stream, perRead, c) != 0 {
      StepKeepsInvariant(c.p, Window(stream, perRead, c));
    }
  }

  // A round before end of input is stated once, by `StepRound`. `Resume`,
  // `NextResumes`, `ResumeAdvances`, `NextAdvances` and `NextFails` are the steps
  // of its proof, kept apart to keep each proof small; `ParsedWindow` restates it
  // for the driver's buffer.

  /** The end of a round that read `n` bytes, given what its step returned: a
      failed step aborts; otherwise the consumed bytes leave the buffer. */
  function Resume(c: Config, n: nat, s: StepResult): (r: Option<Config>)
    requires s.failed || s.consumed <= c.filled + n
    ensures r.None? <==> s.failed
  {
    if s.failed then None
    else Some(Config(Grown(c), c.filled + n - s.consumed, c.pos + n, s.next))
  }

  /** A round that reads something and whose step succeeds keeps what the step
      did not consume buffered, and goes on with the request the step left. */
  lemma NextAdvances(stream: string, perRead: nat, c: Config, n: nat, s: StepResult)
    requires Fits(stream, c) && c.pos < |stream| && ReadSize(stream, perRead, c) == n >= 1
    requires Step(c.p, Window(stream, perRead, c)) == s && !s.failed
    requires s.consumed <= c.filled + n
    ensures Next(stream, perRead, c) == Some(Config(Grown(c), c.filled + n - s.consumed, c.pos + n, s.next))
  {
    NextResumes(stream, perRead, c, s);
    ResumeAdvances(c, n, s);
  }

  /** A round that reads something ends as its step's result says. */
  lemma NextResumes(stream: string, perRead: nat, c: Config, s: StepResult)
    requires Fits(stream, c) && c.pos < |stream| && ReadSize(stream, perRead, c) >= 1
    requires Step(c.p, Window(stream, perRead, c)) == s
    ensures Next(stream, perRead, c) == Resume(c, ReadSize(stream, perRead, c), s)
  {
  }

  /** After a successful step the round keeps the unconsumed bytes buffered. */
  lemma ResumeAdvances(c: Config, n: nat, s: StepResult)
    requires !s.failed && s.consumed <= c.filled + n
    ensures Resume(c, n, s) == Some(Config(Grown(c), c.filled + n - s.consumed, c.pos + n, s.next))
  {
  }

  /** A round whose step fails aborts. */
  lemma NextFails(stream: string, perRead: nat, c: Config, n: nat, s: StepResult)
    requires Fits(stream, c) && c.pos < |stream| && ReadSize(stream, perRead, c) == n >= 1
    requires Step(c.p, Window(stream, perRead, c)) == s && s.failed
    ensures Next(stream, perRead, c) == None
  {
    NextResumes(stream, perRead, c, s);
  }

  /** A round that reads `n >= 1` bytes hands the step the bytes of the stream
      from the first unparsed one up to the end of the read, and aborts exactly
      when that step fails. */
  lemma StepRound(stream: string, perRead: nat, c: Config, n: nat, data: string, s: StepResult)
    requires Fits(stream, c) && c.pos < |stream| && ReadSize(stream, perRead, c) == n >= 1
    requires data == stream[c.pos - c.filled..c.pos + n] && Step(c.p, data) == s
    requires s.failed || s.consumed <= c.filled + n
    ensures Next(stream, perRead, c)
      == if s.failed then None else Some(Config(Grown(c), c.filled + n - s.consumed, c.pos + n, s.next))
  {
    assert data == Window(stream, perRead, c);
    if s.failed {
      NextFails(stream, perRead, c, n, s);
    } else {
      NextAdvances(stream, perRead, c, n, s);
    }
  }

  /** A round before end of input whose read delivers nothing aborts. */
  lemma NextReadsNothing(stream: string, perRead: nat, c: Config)
    requires Fits(stream, c) && c.pos < |stream| && ReadSize(stream, perRead, c) == 0
    ensures Next(stream, perRead, c) == None
  {
  }

  /** A round at end of input reads nothing, keeps the buffered bytes, and ends
      the request in whatever state it was. */
  lemma NextAtEnd(stream: string, perRead: nat, c: Config)
    requires Fits(stream, c) && c.pos == |stream|
    ensures Next(stream, perRead, c) == Some(Config(Grown(c), c.filled, c.pos, c.p.(state := Done)))
  {
  }

  /** The whole loop: rounds until the request is done, giving the final request,
      or until a round aborts (None). A request that comes out is done and keeps
      the invariant. */
  ghost function Run(stream: string, perRead: nat, c: Config): (r: Option<Parser>)
    requires Fits(stream, c)
    ensures r.Some? ==> r.value.state == Done && Inv(r.value)
    ensures c.p.state == Done ==> r == Some(c.p)
    decreases |stream| - c.pos, if c.p.state == Done then 0 else 1
  {
    if c.p.state == Done then Some(c.p)
    else
      match Next(stream, perRead, c)
      case None => None
      case Some(c') =>
        NextFits(stream, perRead, c);
        Run(stream, perRead, c')
  }

  /** Before the headers end, a round whose window holds no CR LF waits: the
      request stays as it is and the bytes read join the buffered ones. */
  lemma NextWaitsForLine(stream: string, perRead: nat, c: Config)
    requires Fits(stream, c) && 1 <= perRead && c.pos < |stream|
    requires c.p.state == Initialised || c.p.state == ParsingHeaders
    requires NoCrlf(Window(stream, perRead, c))
    ensures ReadSize(stream, perRead, c) >= 1
    ensures Next(stream, perRead, c) == Some(Config(Grown(c),
      c.filled + ReadSize(stream, perRead, c), c.pos + ReadSize(stream, perRead, c), c.p))
  {
    StepWaitsForLine(c.p, Window(stream, perRead, c));
    NextAdvances(stream, perRead, c, ReadSize(stream, perRead, c), StepResult(0, false, c.p));
  }

  /** The window of a round lies inside the unparsed input from its start. */
  lemma WindowNoCrlf(stream: string, perRead: nat, c: Config)
    requires Fits(stream, c) && c.pos < |stream|
    requires NoCrlf(stream[c.pos - c.filled..])
    ensures NoCrlf(Window(stream, perRead, c))
  {
    var tail := stream[c.pos - c.filled..];
    var n := ReadSize(stream, perRead, c);
    assert Window(stream, perRead, c) == tail[..c.filled + n];
    NoCrlfSlice(tail, 0, c.filled + n);
  }

  /** A round that does not abort leaves the rest of the loop to run from where
      it ends. */
  lemma RunNext(stream: string, perRead: nat, c: Config, c': Config)
    requires Fits(stream, c) && c.p.state != Done
    requires Next(stream, perRead, c) == Some(c')
    ensures Fits(stream, c')
    ensures Run(stream, perRead, c) == Run(stream, perRead, c')
  {
    NextFits(stream, perRead, c);
  }

  /** At end of input the loop ends with the request as it is, marked done. */
  lemma RunEnd(stream: string, perRead: nat, c: Config)
    requires Fits(stream, c) && c.p.state != Done && c.pos == |stream|
    ensures Run(stream, perRead, c) == Some(c.p.(state := Done))
  {
    var c' := Next(stream, perRead, c).value;
    RunNext(stream, perRead, c, c');
  }

  /** A round that aborts ends the loop without a request. */
  lemma RunAborts(stream: string, perRead: nat, c: Config)
    requires Fits(stream, c) && c.p.state != Done && Next(stream, perRead, c) == None
    ensures Run(stream, perRead, c) == None
  {
  }

  /** `RequestFromReader` gives up on the request line it got: a part is empty. */
  predicate MissingPart(l: RequestLine) {
    l.httpVersion == [] || l.httpMethod == [] || l.target == []
  }
  /** One round keeps `Tracks`: the bytes consumed so far are those before the
      buffered ones. */
  lemma NextTracks(stream: string, perRead: nat, c: Config, bodyAt: nat) returns (bodyAt': nat)
    requires Fits(stream, c) && Tracks(stream, c.pos - c.filled, bodyAt, c.p)
    requires Next(stream, perRead, c).Some?
    ensures Tracks(stream, Next(stream, perRead, c).value.pos - Next(stream, perRead, c).value.filled,
                   bodyAt', Next(stream, perRead, c).value.p)
  {
    if c.pos == |stream| {
      NextAtEnd(stream, perRead, c);
      TracksDone(stream, c.pos - c.filled, bodyAt, c.p);
      bodyAt' := bodyAt;
    } else {
      bodyAt' := ReadTracks(stream, perRead, c, bodyAt);
    }
  }

  /** The same for a round before end of input: its step takes the bytes right
      after the consumed ones. */
  lemma ReadTracks(stream: string, perRead: nat, c: Config, bodyAt: nat) returns (bodyAt': nat)
    requires Fits(stream, c) && Tracks(stream, c.pos - c.filled, bodyAt, c.p) && c.pos < |stream|
    requires Next(stream, perRead, c).Some?
    ensures Tracks(stream, Next(stream, perRead, c).value.pos - Next(stream, perRead, c).value.filled,
                   bodyAt', Next(stream, perRead, c).value.p)
  {
    var n := ReadSize(stream, perRead, c);
    var at := c.pos - c.filled;
    var data := Window(stream, perRead, c);
    var s := Step(c.p, data);
    var c' := Next(stream, perRead, c).value;
    assert !s.failed && c'.pos - c'.filled == at + s.consumed && c'.p == s.next by {
      StepKeepsInvariant(c.p, data);
      StepRound(stream, perRead, c, n, data, s);
    }
    assert at + |data| == c.pos + n;
    bodyAt' := TracksStep(stream, at, bodyAt, c.p, data);
  }

  /** Every round keeps `Tracks`, so the request a run ends with tracks the bytes
      consumed by then. */
  lemma {:induction false} RunTracks(stream: string, perRead: nat, c: Config, bodyAt: nat)
    returns (consumed: nat, bodyAt': nat)
    requires Fits(stream, c) && Tracks(stream, c.pos - c.filled, bodyAt, c.p)
    ensures Run(stream, perRead, c).Some? ==> Tracks(stream, consumed, bodyAt', Run(stream, perRead, c).value)
    decreases |stream| - c.pos, if c.p.state == Done then 0 else 1
  {
    if c.p.state == Done {
      return c.pos - c.filled, bodyAt;
    }
    match Next(stream, perRead, c)
    case None =>
      RunAborts(stream, perRead, c);
      return 0, 0;
    case Some(c') =>
      var b := NextTracks(stream, perRead, c, bodyAt);
      RunNext(stream, perRead, c, c');
      consumed, bodyAt' := RunTracks(stream, perRead, c', b);
  }

  /** A request that a run from the start ends with and whose request line is
      valid has that line at the front of the stream, written out, and its body is
      a run of the stream after it. */
  lemma RunRequestLine(stream: string, perRead: nat)
    ensures var run := Run(stream, perRead, Start);
      run.Some? && ValidRequestLine(run.value.line) ==>
        && ParseRequestLine(stream) == Parsed(run.value.line, |FormatRequestLine(run.value.line)|)
        && exists i :: |FormatRequestLine(run.value.line)| <= i && RunAt(stream, i, run.value.body)
  {
    InitialInv();
    assert RunAt(stream, 0, []);
    var consumed, bodyAt := RunTracks(stream, perRead, Start, 0);
    var run := Run(stream, perRead, Start);
    if run.Some? && ValidRequestLine(run.value.line) {
      TracksResult(stream, consumed, bodyAt, run.value);
    }
  }

  /** Without a CR LF in the stream the request line is never set: a run from the
      start ends, if at all, with the empty request line, which misses every part. */
  lemma RunWithoutCrlf(stream: string, perRead: nat)
    requires NoCrlf(stream)
    ensures var run := Run(stream, perRead, Start);
      run.Some? ==> run.value.line == EmptyLine && MissingPart(run.value.line)
  {
    RunRequestLine(stream, perRead);
  }

  /** A reader that hands out nothing per read makes the first round abort on any
      non-empty stream. */
  lemma RunWithoutReads(stream: string)
    requires stream != []
    ensures Run(stream, 0, Start) == None
  {
    InitialInv();
    RunAborts(stream, 0, Start);
  }


  /** A round while the headers are being parsed and the unparsed input holds
      no CR LF: the step waits, the read moves on, and the unparsed bytes still
      start where they did. */
  lemma HeadersWait(stream: string, perRead: nat, c: Config) returns (c': Config)
    requires Fits(stream, c) && c.p.state == ParsingHeaders && 1 <= perRead && c.pos < |stream|
    requires NoCrlf(stream[c.pos - c.filled..])
    ensures Fits(stream, c') && c'.p == c.p && c.pos < c'.pos
    ensures c'.pos - c'.filled == c.pos - c.filled
    ensures Run(stream, perRead, c) == Run(stream, perRead, c')
  {
    WindowNoCrlf(stream, perRead, c);
    NextWaitsForLine(stream, perRead, c);
    var n := ReadSize(stream, perRead, c);
    c' := Config(Grown(c), c.filled + n, c.pos + n, c.p);
    RunNext(stream, perRead, c, c');
  }

  /** While the headers are being parsed and the unparsed input holds no CR LF,
      every round waits for more, and end of input finishes the request as it is. */
  lemma {:induction false} HeadersNeverEnd(stream: string, perRead: nat, c: Config)
    requires Fits(stream, c) && c.p.state == ParsingHeaders && 1 <= perRead
    requires NoCrlf(stream[c.pos - c.filled..])
    ensures Run(stream, perRead, c) == Some(c.p.(state := Done))
    decreases |stream| - c.pos
  {
    if c.pos == |stream| {
      RunEnd(stream, perRead, c);
    } else {
      var c' := HeadersWait(stream, perRead, c);
      HeadersNeverEnd(stream, perRead, c');
    }
  }

  /** A round before the request line is complete: the step waits and the read
      moves on. */
  lemma LineWait(l: RequestLine, rest: string, perRead: nat, c: Config) returns (c': Config)
    requires ValidRequestLine(l) && 1 <= perRead
    requires Fits(FormatRequestLine(l) + rest, c)
    requires c.p == Initial && c.filled == c.pos < |FormatRequestLine(l)|
    requires c.pos + ReadSize(FormatRequestLine(l) + rest, perRead, c) < |FormatRequestLine(l)|
    ensures Fits(FormatRequestLine(l) + rest, c')
    ensures c'.p == Initial && c'.filled == c'.pos < |FormatRequestLine(l)| && c.pos < c'.pos
    ensures Run(FormatRequestLine(l) + rest, perRead, c) == Run(FormatRequestLine(l) + rest, perRead, c')
  {
    var line := FormatRequestLine(l);
    var stream := line + rest;
    var n := ReadSize(stream, perRead, c);
    LineWindowWaits(l, rest, perRead, c);
    NextWaitsForLine(stream, perRead, c);
    c' := Config(Grown(c), c.filled + n, c.pos + n, Initial);
    RunNext(stream, perRead, c, c');
  }

  /** Before the request line is complete, a round's window is a proper prefix
      of the line and holds no CR LF. */
  lemma LineWindowWaits(l: RequestLine, rest: string, perRead: nat, c: Config)
    requires ValidRequestLine(l)
    requires Fits(FormatRequestLine(l) + rest, c)
    requires c.filled == c.pos < |FormatRequestLine(l)|
    requires c.pos + ReadSize(FormatRequestLine(l) + rest, perRead, c) < |FormatRequestLine(l)|
    ensures NoCrlf(Window(FormatRequestLine(l) + rest, perRead, c))
  {
    var line := FormatRequestLine(l);
    var n := ReadSize(line + rest, perRead, c);
    assert Window(line + rest, perRead, c) == line[..c.pos + n];
    LinePrefixNoCrlf(l, c.pos + n);
  }

  /** The round that reads the last byte of the request line hands the step the
      whole line and what follows it, and the step takes the line. */
  lemma LineWindowParses(l: RequestLine, rest: string, perRead: nat, c: Config)
    requires ValidRequestLine(l)
    requires Fits(FormatRequestLine(l) + rest, c)
    requires c.p == Initial && c.filled == c.pos < |FormatRequestLine(l)|
    requires c.pos + ReadSize(FormatRequestLine(l) + rest, perRead, c) >= |FormatRequestLine(l)|
    ensures Step(c.p, Window(FormatRequestLine(l) + rest, perRead, c))
      == StepResult(|FormatRequestLine(l)|, false, Initial.(line := l, state := ParsingHeaders))
  {
    var line := FormatRequestLine(l);
    var n := ReadSize(line + rest, perRead, c);
    var after := rest[..c.pos + n - |line|];
    assert Window(line + rest, perRead, c) == line + after;
    ParseFormattedRequestLine(l, after);
  }

  /** Before the request line is complete every round waits; the round that
      completes it parses it, and the headers then never end. */
  lemma {:induction false} LineThenNoCrlf(l: RequestLine, rest: string, perRead: nat, c: Config)
    requires ValidRequestLine(l) && NoCrlf(rest) && 1 <= perRead
    requires Fits(FormatRequestLine(l) + rest, c)
    requires c.p == Initial && c.filled == c.pos < |FormatRequestLine(l)|
    ensures Run(FormatRequestLine(l) + rest, perRead, c) == Some(Initial.(line := l, state := Done))
    decreases |FormatRequestLine(l) + rest| - c.pos
  {
    var stream := FormatRequestLine(l) + rest;
    if c.pos + ReadSize(stream, perRead, c) < |FormatRequestLine(l)| {
      var c' := LineWait(l, rest, perRead, c);
      LineThenNoCrlf(l, rest, perRead, c');
    } else {
      var c' := LineParsed(l, rest, perRead, c);
      HeadersNeverEnd(stream, perRead, c');
    }
  }

  /** The round that reads the last byte of the request line parses it, keeps the
      bytes after it buffered, and starts on the headers. */
  lemma LineParsed(l: RequestLine, rest: string, perRead: nat, c: Config) returns (c': Config)
    requires ValidRequestLine(l) && 1 <= perRead
    requires Fits(FormatRequestLine(l) + rest, c)
    requires c.p == Initial && c.filled == c.pos < |FormatRequestLine(l)|
    requires c.pos + ReadSize(FormatRequestLine(l) + rest, perRead, c) >= |FormatRequestLine(l)|
    ensures Fits(FormatRequestLine(l) + rest, c')
    ensures c'.p == Initial.(line := l, state := ParsingHeaders)
    ensures (FormatRequestLine(l) + rest)[c'.pos - c'.filled..] == rest
    ensures Run(FormatRequestLine(l) + rest, perRead, c) == Run(FormatRequestLine(l) + rest, perRead, c')
  {
    var line := FormatRequestLine(l);
    var stream := line + rest;
    var n := ReadSize(stream, perRead, c);
    LineWindowParses(l, rest, perRead, c);
    NextAdvances(stream, perRead, c, n,
      StepResult(|line|
, false, Initial.(line := l, state := ParsingHeaders)));
    c' := Config(Grown(c), c.pos + n - |line|, c.pos + n, Initial.(line := l, state := ParsingHeaders));
    RunNext(stream, perRead, c, c');
  }

  /** End of input makes the request done whatever its state: a valid request
      line with a target, followed by bytes that never complete a header line, is
      a request with no headers and no body, for every read size of at least one. */
  lemma UnterminatedHeadersSucceed(l: RequestLine, rest: string, perRead: nat)
    requires ValidRequestLine(l) && l.target != [] && NoCrlf(rest) && 1 <= perRead
    ensures Run(FormatRequestLine(l) + rest, perRead, Start) == Some(Initial.(line := l, state := Done))
    ensures !MissingPart(l)
  {
    var line := FormatRequestLine(l);
    InitialInv();
    assert |line| >= 2 && Fits(line + rest, Start);
    LineThenNoCrlf(l, rest, perRead, Start);
    assert l.httpMethod != [] by {
      assert l.httpMethod in AllowedMethods;
    }
  }

  /** The request of the "Empty Headers" test, read two bytes at a time: the
      line, then `r` LF and end of input. It comes out with no headers, no body and
      nothing missing. */
  lemma EmptyHeadersRequest()
    ensures var l := RequestLine("GET", "1.1", "/");
      && Run("GET / HTTP/1.1\r\n" + "r\n", 2, Start) == Some(Initial.(line := l, state := Done))
      && !MissingPart(l)
  {
    var l := RequestLine("GET", "1.1", "/");
    assert AllowedMethods[0] == "GET";
    assert FormatRequestLine(l) == "GET / HTTP/1.1\r\n";
    assert NoCrlf("r\n") by {
      assert !CrlfAt("r\n", 0) && !CrlfAt("r\n", 1);
    }
    UnterminatedHeadersSucceed(l, "r\n", 2);
  }

  /** What holds between rounds of the loop of `RequestFromReader`: the loop is
      in a configuration that fits the stream, and the buffer holds exactly the
      last `filled` bytes read, the ones `parse` has not consumed. */
  ghost predicate Driving(reader: ChunkReader, buffer: array<char>, filled: int, r: Request)
    reads reader, buffer, r, r.headers
  {
    && reader.Valid()
    && 0 <= filled <= buffer.Length
    && Fits(reader.data, Config(buffer.Length, filled, reader.pos, r.View()))
    && buffer[..filled] == reader.data[reader.pos - filled..reader.pos]
  }

  /** The top of the loop of `RequestFromReader`: `FillBuffer`, and on `io.EOF`
      the state becomes `Done`, whatever it was. What is read joins the buffered
      bytes; nothing else of the request changes. */
  method ReadMore(reader: ChunkReader, buffer: array<char>, filled: int, r: Request)
    returns (b: array<char>, n: int, eof: bool)
    requires Driving(reader, buffer, filled, r)
    modifies reader, buffer, r
    ensures b == buffer || fresh(b)
    ensures b.Length == if filled >= buffer.Length then 2 * buffer.Length else buffer.Length
    ensures eof <==> old(reader.pos) == |reader.data|
    ensures n == Min(Min(reader.numBytesPerRead, |reader.data| - old(reader.pos)), b.Length - filled)
    ensures reader.pos == old(reader.pos) + n
    ensures eof ==> r.View() == old(r.View()).(state := Done)
    ensures !eof ==> r.View() == old(r.View())
    ensures Driving(reader, b, filled + n, r)
  {
    b, n, eof := FillBuffer(reader, buffer, filled, reader.pos - filled);
    if eof {
      ghost var v := r.View();
      InvDone(v);
      r.state := Done;
      assert r.View() == v.(state := Done);
    }
  }

  /** The parse half of a round whose read delivered `n >= 1` bytes before end of
      input, from the configuration `c` the round started in: the step on the
      buffered bytes gives up exactly when the round aborts, and otherwise the
      buffer, the reader and the request are where `Next` says the round ends. */
  method ParseRead(reader: ChunkReader, buffer: array<char>, filled: int, r: Request, ghost c: Config, ghost n: nat)
    returns (filled': int, failed: bool)
    requires Driving(reader, buffer, filled, r)
    requires Fits(reader.data, c) && c.pos < |reader.data|
    requires n == ReadSize(reader.data, reader.numBytesPerRead, c) >= 1
    requires reader.pos == c.pos + n && filled == c.filled + n
    requires buffer.Length == Grown(c) && r.View() == c.p
    modifies r, r.headers, buffer
    ensures !failed ==> Driving(reader, buffer, filled', r)
    ensures Next(reader.data, reader.numBytesPerRead, c)
      == if failed then None else Some(Config(buffer.Length, filled', reader.pos, r.View()))
  {
    ghost var data := buffer[..filled];
    var parsed;
    parsed, failed := ParseBuffered(r, buffer, filled);
    filled' := filled - parsed;
    ParsedWindow(reader.data, reader.numBytesPerRead, c, n, reader.pos, filled, data,
      StepResult(parsed, failed, r.View()), filled', if failed then [] else buffer[..filled']);
  }

  /** One round of the loop of `RequestFromReader`: read, then parse what is
      buffered. It is the round `Next` describes: it gives up (`abort`) exactly
      when `Next` does, that is when a read before end of input delivers nothing
      or the step fails, and otherwise ends where `Next` ends. It ends parsing at
      end of input (`stop`), and otherwise makes progress through the input. */
  method Round(reader: ChunkReader, buffer: array<char>, filled: int, r: Request)
    returns (buffer': array<char>, filled': int, stop: bool, abort: bool)
    requires Driving(reader, buffer, filled, r) && r.state != Done
    modifies reader, buffer, r, r.headers
    ensures buffer' == buffer || fresh(buffer')
    ensures !abort ==> Driving(reader, buffer', filled', r)
    ensures Next(reader.data, reader.numBytesPerRead, Config(buffer.Length, filled, old(reader.pos), old(r.View())))
      == if abort then None else Some(Config(buffer'.Length, filled', reader.pos, r.View()))
    ensures stop <==> !abort && old(reader.pos) == |reader.data|
    ensures stop ==> r.state == Done
    ensures !abort && !stop ==> old(reader.pos) < reader.pos
    ensures reader.numBytesPerRead == 0 && old(reader.pos) < |reader.data| ==> abort
  {
    ghost var c := Config(buffer.Length, filled, reader.pos, r.View());
    var n, eof;
    buffer', n, eof := ReadMore(reader, buffer, filled, r);
    if eof {
      NextAtEnd(reader.data, reader.numBytesPerRead, c);
      filled', stop, abort := filled + n, true, false;
    } else if n == 0 {
      NextReadsNothing(reader.data, reader.numBytesPerRead, c);
      filled', stop, abort := filled, false, true;
    } else {
      filled', abort := ParseRead(reader, buffer', filled + n, r, c, n);
      stop := false;
    }
  }

  /** Dropping the first `k` bytes of a slice of the stream leaves a later slice. */
  lemma WindowSuffix(stream: string, data: string, lo: int, hi: int, k: nat, m: nat)
    requires 0 <= lo <= hi <= |stream| && data == stream[lo..hi] && k + m == |data|
    ensures data[k..] == stream[hi - m..hi]
  {
  }

  /** The parse half of a round on values: the `f` bytes before position `hi` are
      given to the step, and what it leaves unconsumed is the last `k` bytes before
      `hi`, which is where `Next` puts the round. */
  lemma ParsedWindow(stream: string, perRead: nat, c: Config, n: nat, hi: int, f: int, data: string,
                     s: StepResult, k: int, rest: string)
    requires Fits(stream, c) && c.pos < |stream| && ReadSize(stream, perRead, c) == n >= 1
    requires hi == c.pos + n && f == c.filled + n && data == stream[hi - f..hi]
    requires s == Step(c.p, data)
    requires !s.failed ==> s.consumed <= f && k == f - s.consumed && rest == data[s.consumed..]
    ensures Next(stream, perRead, c) == if s.failed then None else Some(Config(Grown(c), k, hi, s.next))
    ensures !s.failed ==> 0 <= k && Fits(stream, Config(Grown(c), k, hi, s.next)) && rest == stream[hi - k..hi]
  {
    assert hi - f == c.pos - c.filled;
    assert Next(stream, perRead, c) == if s.failed then None else Some(Config(Grown(c), k, hi, s.next)) by {
      StepKeepsInvariant(c.p, data);
      StepRound(stream, perRead, c, n, data, s);
    }
    NextFits(stream, perRead, c);
    if !s.failed {
      WindowSuffix(stream, data, hi - f, hi, s.consumed, k);
    }
  }

  /** The loop of `RequestFromReader`: from an 8-byte buffer and a fresh request,
      rounds until the request is done. It carries out `Run` from `Start`: it fails
      exactly when the run aborts, and otherwise leaves the request the run ends
      with. */
  method ReadLoop(reader: ChunkReader) returns (r: Request, ok: bool)
    requires reader.Valid() && reader.pos == 0
    modifies reader
    ensures fresh(r) && fresh(r.headers)
    ensures var run := Run(reader.data, reader.numBytesPerRead, Start);
      ok == run.Some? && (ok ==> r.View() == run.value)
  {
    var buffer := new char[8](_ => '\0');
    var currReadIdx := 0;
    r := new Request();
    ghost var perRead: nat := reader.numBytesPerRead;
    InitialInv();
    ghost var run := Run(reader.data, perRead, Start);
    while r.state != Done
      invariant fresh(r) && fresh(r.headers) && fresh(buffer)
      invariant Driving(reader, buffer, currReadIdx, r)
      invariant Run(reader.data, perRead, Config(buffer.Length, currReadIdx, reader.pos, r.View())) == run
      decreases |reader.data| - reader.pos
    {
      ghost var c := Config(buffer.Length, currReadIdx, reader.pos, r.View());
      var stop, abort;
      buffer, currReadIdx, stop, abort := Round(reader, buffer, currReadIdx, r);
      if abort {
        RunAborts(reader.data, perRead, c);
        return r, false;
      }
      RunNext(reader.data, perRead, c, Config(buffer.Length, currReadIdx, reader.pos, r.View()));
      if stop {
        break;
      }
    }
    ok := true;
  }

  /** `RequestFromReader`: the loop, then the checks on the request it leaves. The
      result is null (an error) when a read delivers nothing, a step fails, or the
      request line was never set or has an empty target; it is the request
      together with an error when its body is shorter than its `content-length`.
      That is, it returns null exactly when the run from `Start` aborts or the
      request it ends with misses a part of its line, and otherwise returns that
      very request. Moreover the request line is the one the stream starts with,
      every stored key is a valid lower-case key, and the body is a run of the
      stream after that line. */
  method RequestFromReader(reader: ChunkReader) returns (req: Request?, err: bool)
    requires reader.Valid() && reader.pos == 0
    modifies reader
    ensures req == null ==> err
    ensures var run := Run(reader.data, reader.numBytesPerRead, Start);
      && (req == null <==> run.None? || MissingPart(run.value.line))
      && (req != null ==> req.View() == run.value)
    ensures NoCrlf(reader.data) ==> req == null
    ensures reader.numBytesPerRead == 0 && reader.data != [] ==> req == null
    ensures req != null ==>
      && req.state == Done
      && ValidRequestLine(req.line) && req.line.target != []
      && ParseRequestLine(reader.data) == Parsed(req.line, |FormatRequestLine(req.line)|)
      && ValidFields(req.headers.entries)
      && |req.body| <= req.reportedContentLen
      && (err <==> |req.body| < req.reportedContentLen)
      && exists i :: |FormatRequestLine(req.line)| <= i && RunAt(reader.data, i, req.body)
  {
    var r, ok := ReadLoop(reader);
    if NoCrlf(reader.data) {
      RunWithoutCrlf(reader.data, reader.numBytesPerRead);
    }
    if reader.numBytesPerRead == 0 && reader.data != [] {
      RunWithoutReads(reader.data);
    }
    if !ok || r.line.httpVersion == [] || r.line.httpMethod == [] || r.line.target == [] {
      return null, true;
    }
    req := r;
    err := |req.body| < req.reportedContentLen;
    RunRequestLine(reader.data, reader.numBytesPerRead);
  }

  /** A request line with a target, then bytes without a CR LF, then end of input:
      `RequestFromReader` returns the request with that line, no headers and no
      body, and no error, however many bytes each read hands out. The "Empty
      Headers" test of internal/request/request_test.go is the case `rest == "r\n"`
      with two bytes a read. */
  method ReadUnterminatedHeaders(l: RequestLine, rest: string, perRead: nat) returns (req: Request?, err: bool)
    requires ValidRequestLine(l) && l.target != [] && NoCrlf(rest) && 1 <= perRead
    ensures req != null && !err
    ensures req.View() == Initial.(line := l, state := Done)
  {
    var reader := new ChunkReader(FormatRequestLine(l) + rest, perRead);
    UnterminatedHeadersSucceed(l, rest, perRead);
    req, err := RequestFromReader(reader);
  }
}
