/** Response serialisation of internal/response/response.go: the status line for
    the three supported codes, the default header map, and the header block with
    its blank line, written to an output stream. */
module Response {
  import opened Text
  import opened Headers

  /** The output stream a response is written to, as the sequence of chunks
      handed to successful `Write` calls: every successful call appends all of its
      bytes, and the one call whose index is `failAt`, if any, fails and appends
      nothing. The bytes on the wire are `Flatten(writes)`. */
  class Sink {
    var writes: seq<string>
    var calls: nat
    const failAt: Option<nat>

    constructor (failAt: Option<nat>)
      ensures writes == [] && calls == 0 && this.failAt == failAt
    {
      writes := [];
      calls := 0;
      this.failAt := failAt;
    }

    /** `io.Writer.Write`, reduced to whether it succeeded. */
    method Write(p: string) returns (ok: bool)
      modifies this
      ensures calls == old(calls) + 1
      ensures ok <==> failAt != Some(old(calls))
      ensures writes == if ok then old(writes) + [p] else old(writes)
    {
      ok := failAt != Some(calls);
      if ok {
        writes := writes + [p];
      }
      calls := calls + 1;
    }
  }

  /** The status codes the source names. */
  const StatusOK: int := 200
  const StatusBadRequest: int := 400
  const StatusInternalServerError: int := 500

  /** The protocol version every status line starts with. */
  const HttpVersion: string := "HTTP/1.1"

  /** The reason phrase the source pairs with each supported code. */
  function Reason(code: int): Option<string> {
    if code == StatusOK then Some("OK")
    else if code == StatusBadRequest then Some("Bad Request")
    else if code == StatusInternalServerError then Some("Internal Server Error")
    else None
  }

  /** The status line of section 4 of RFC 9112, `HTTP-version SP status-code SP
      reason-phrase CRLF`, for a code that has a reason phrase. */
  function StatusLine(code: int): (r: Option<string>)
    ensures r.Some? <==> code in {StatusOK, StatusBadRequest, StatusInternalServerError}
  {
    match Reason(code)
    case None => None
    case Some(reason) => Some(HttpVersion + " " + Itoa(code) + " " + reason + CRLF)
  }

  /** The decimal spelling of each supported code. */
  lemma StatusDigits()
    ensures Itoa(StatusOK) == "200"
    ensures Itoa(StatusBadRequest) == "400"
    ensures Itoa(StatusInternalServerError) == "500"
  {
    assert NatToDecimal(20) == NatToDecimal(2) + "0";
    assert NatToDecimal(40) == NatToDecimal(4) + "0";
    assert NatToDecimal(50) == NatToDecimal(5) + "0";
  }

  /** The line the source writes for 200 is the status line of RFC 9112. */
  lemma StatusLineOK()
    ensures StatusLine(StatusOK) == Some("HTTP/1.1 200 OK\r\n")
  {
    StatusDigits();
    assert Reason(StatusOK) == Some("OK");
    assert "HTTP/1.1" + " " + "200" + " " + "OK" + CRLF == "HTTP/1.1 200 OK\r\n";
  }

  /** The line the source writes for 400 is the status line of RFC 9112. */
  lemma StatusLineBadRequest()
    ensures StatusLine(StatusBadRequest) == Some("HTTP/1.1 400 Bad Request\r\n")
  {
    StatusDigits();
    assert Reason(StatusBadRequest) == Some("Bad Request");
    assert "HTTP/1.1" + " " + "400" + " " + "Bad Request" + CRLF == "HTTP/1.1 400 Bad Request\r\n";
  }

  /** The line the source writes for 500 is the status line of RFC 9112. */
  lemma StatusLineInternalServerError()
    ensures StatusLine(StatusInternalServerError) == Some("HTTP/1.1 500 Internal Server Error\r\n")
  {
    StatusDigits();
    assert Reason(StatusInternalServerError) == Some("Internal Server Error");
    assert "HTTP/1.1" + " " + "500" + " " == "HTTP/1.1 500 ";
    assert "HTTP/1.1 500 " + "Internal Server Error" + CRLF == "HTTP/1.1 500 Internal Server Error\r\n";
  }

  /** `WriteStatusLine`: an unsupported code is an error that writes nothing;
      otherwise the status line goes out in one write, and the error is that
      write's. */
  method WriteStatusLine(w: Sink, code: int) returns (err: bool)
    modifies w
    ensures StatusLine(code).None? ==> err && w.writes == old(w.writes) && w.calls == old(w.calls)
    ensures StatusLine(code).Some? ==>
      && w.calls == old(w.calls) + 1
      && (err <==> w.failAt == Some(old(w.calls)))
      && w.writes == old(w.writes) + (if err then [] else [StatusLine(code).value])
  {
    var d: string;
    if code == 200 {
      d := "HTTP/1.1 200 OK\r\n";
      StatusLineOK();
    } else if code == 400 {
      d := "HTTP/1.1 400 Bad Request\r\n";
      StatusLineBadRequest();
    } else if code == 500 {
      d := "HTTP/1.1 500 Internal Server Error\r\n";
      StatusLineInternalServerError();
    } else {
      return true;
    }
    var ok := w.Write(d);
    err := !ok;
  }

  /** `GetDefaultHeaders`: the body length, `connection: close` and a plain-text
      content type. */
  function DefaultHeaders(contentLen: int): (r: Fields)
    ensures ValidFields(r)
  {
    map[ContentLength := Itoa(contentLen), "connection" := "close", "content-type" := "text/plain"]
  }

  /** The default map has exactly three entries, and a case-insensitive lookup of
      `Content-Length` gives back the number it was built from. */
  lemma DefaultHeadersContent(n: int)
    ensures DefaultHeaders(n).Keys == {ContentLength, "connection", "content-type"}
    ensures |DefaultHeaders(n)| == 3
    ensures DefaultHeaders(n)["connection"] == "close"
    ensures DefaultHeaders(n)["content-type"] == "text/plain"
    ensures var (v, found) := Lookup(DefaultHeaders(n), "Content-Length");
      found && Atoi(v) == Some(n)
  {
    var h := DefaultHeaders(n);
    assert ToLower("Content-Length") == ContentLength;
    assert ContentLength != "connection" && ContentLength != "content-type"
      && "connection" != "content-type";
    assert |h.Keys| == 3;
  }

  /** Every field line of `h`, in the order `order` lists its keys. */
  function SerializeFields(h: Fields, order: seq<string>): string
  {
    if order == [] then []
    else if order[0] in h then FieldLine(order[0], h[order[0]]) + SerializeFields(h, order[1..])
    else SerializeFields(h, order[1..])
  }

  /** The bytes the field lines take: each key and value and four more bytes. */
  function LinesSize(h: Fields, order: seq<string>): nat
  {
    if order == [] then 0
    else if order[0] in h then |order[0]| + |h[order[0]]| + 4 + LinesSize(h, order[1..])
    else LinesSize(h, order[1..])
  }

  /** The field lines take `|k| + |v| + 4` bytes each, nothing else. */
  lemma {:induction false} SerializeFieldsLength(h: Fields, order: seq<string>)
    ensures |SerializeFields(h, order)| == LinesSize(h, order)
  {
    if order != [] {
      SerializeFieldsLength(h, order[1..]);
    }
  }

  /** `WriteHeaders`: one write of `k: v` CR LF per entry, in the order `order`
      in which the `range` loop visits the map (an order the map does not fix, so
      it is an input here; `KeyOrder` shows one always exists), then the blank
      line. The first `sent` field lines went out; a failed field-line write ends
      it with an error before the blank line, and a failed blank-line write is not
      reported. */
  method WriteHeaders(w: Sink, h: Fields, order: seq<string>) returns (err: bool, ghost sent: nat)
    requires forall i :: 0 <= i < |order| ==> order[i] in h
    requires forall i, j :: 0 <= i < j < |order| ==> order[i] != order[j]
    requires |order| == |h|
    modifies w
    ensures sent <= |order| && (err <==> sent < |order|)
    ensures err <==> w.failAt.Some? && old(w.calls) <= w.failAt.value < old(w.calls) + |h|
    ensures err ==> w.failAt == Some(old(w.calls) + sent)
    ensures w.calls == old(w.calls) + sent + 1
    ensures w.writes == old(w.writes) + Lines(h, order[..sent])
      + (if err || w.failAt == Some(old(w.calls) + |h|) then [] else [CRLF])
  {
    var n := WriteFieldLines(w, h, order);
    sent := n;
    if n < |order| {
      return true, n;
    }
    ghost var mid := w.writes;
    var _ := w.Write(CRLF);
    if w.failAt == Some(old(w.calls) + |h|) {
      assert w.writes == mid + [];
    } else {
      assert w.writes == mid + [CRLF];
    }
    err := false;
  }

  /** The field lines of `keys`, one write each, until a write fails: `sent` is
      how many went out, and the write after them is the one that failed. */
  method WriteFieldLines(w: Sink, h: Fields, keys: seq<string>) returns (sent: nat)
    requires forall i :: 0 <= i < |keys| ==> keys[i] in h
    modifies w
    ensures sent <= |keys|
    ensures sent < |keys| <==> w.failAt.Some? && old(w.calls) <= w.failAt.value < old(w.calls) + |keys|
    ensures sent < |keys| ==> w.failAt == Some(old(w.calls) + sent) && w.calls == old(w.calls) + sent + 1
    ensures sent == |keys| ==> w.calls == old(w.calls) + sent
    ensures w.writes == old(w.writes) + Lines(h, keys[..sent])
  {
    ghost var start, before := w.calls, w.writes;
    sent := 0;
    while sent < |keys|
      invariant sent <= |keys|
      invariant w.calls == start + sent
      invariant w.failAt.Some? ==> w.failAt.value < start || w.calls <= w.failAt.value
      invariant w.writes == before + Lines(h, keys[..sent])
    {
      var k := keys[sent];
      var line := FieldLine(k, h[k]);
      ghost var so := w.writes;
      var ok := w.Write(line);
      if !ok {
        assert w.failAt == Some(start + sent);
        return;
      }
      assert w.writes == so + [line];
      LinesSnoc(h, keys[..sent], k);
      assert keys[..sent + 1] == keys[..sent] + [k];
      assert w.writes == before + Lines(h, keys[..sent + 1]);
      sent := sent + 1;
    }
  }

  /** The order a `range` over the map visits its keys in: every key once, in an
      order the map does not fix. */
  method KeyOrder(h: Fields) returns (order: seq<string>)
    ensures forall k :: k in h <==> k in order
    ensures forall i, j :: 0 <= i < j < |order| ==> order[i] != order[j]
    ensures |order| == |h|
  {
    var rest := h.Keys;
    order := [];
    while rest != {}
      invariant rest <= h.Keys
      invariant forall k :: k in h <==> k in rest || k in order
      invariant forall k <- order :: k !in rest
      invariant forall i, j :: 0 <= i < j < |order| ==> order[i] != order[j]
      invariant |order| + |rest| == |h|
      decreases |rest|
    {
      var k :| k in rest;
      order := order + [k];
      rest := rest - {k};
    }
  }

  /** The field-line chunks of `h`, one per key of `order` that `h` holds. */
  function Lines(h: Fields, order: seq<string>): seq<string>
  {
    if order == [] then []
    else if order[0] in h then [FieldLine(order[0], h[order[0]])] + Lines(h, order[1..])
    else Lines(h, order[1..])
  }

  /** Adding one key at the end adds its field line at the end. */
  lemma {:induction false} LinesSnoc(h: Fields, order: seq<string>, k: string)
    requires k in h
    ensures Lines(h, order + [k]) == Lines(h, order) + [FieldLine(k, h[k])]
  {
    if order == [] {
      assert [k][1..] == [];
    } else {
      assert (order + [k])[1..] == order[1..] + [k];
      LinesSnoc(h, order[1..], k);
    }
  }

  /** The bytes a sequence of writes puts on the wire. */
  function Flatten(chunks: seq<string>): string
  {
    if chunks == [] then [] else chunks[0] + Flatten(chunks[1..])
  }

  /** The bytes of two runs of writes are the bytes of each, in order. */
  lemma {:induction false} FlattenAppend(a: seq<string>, b: seq<string>)
    ensures Flatten(a + b) == Flatten(a) + Flatten(b)
  {
    if a != [] {
      assert (a + b)[1..] == a[1..] + b;
      FlattenAppend(a[1..], b);
    } else {
      assert a + b == b;
    }
  }

  /** The field-line chunks put on the wire are the serialised header block. */
  lemma {:induction false} FlattenLines(h: Fields, order: seq<string>)
    ensures Flatten(Lines(h, order)) == SerializeFields(h, order)
  {
    if order != [] {
      FlattenLines(h, order[1..]);
      if order[0] in h {
        var first := [FieldLine(order[0], h[order[0]])];
        FlattenAppend(first, Lines(h, order[1..]));
        assert Flatten(first) == FieldLine(order[0], h[order[0]]);
      }
    }
  }


  /** A header map that writes out as it should: every key a field name with no
      upper-case letter, every value trimmed and free of CR LF. */
  predicate Writable(h: Fields) {
    forall k :: k in h ==> FieldName(k) && LowerCase(k) && FieldValue(h[k])
  }

  /** The header block as the request side reads it: `Headers.Parse` called on
      what is left until it reports done, fails, or asks for more input. The result
      is the map and whether done was reached. */
  function ParseFieldBlock(m: Fields, data: string): (r: (Fields, bool))
    ensures ValidFields(m) ==> ValidFields(r.0)
    decreases |data|
  {
    var s := ParseLine(m, data);
    ParseLinePreservesValid(m, data);
    if s.failed then (m, false)
    else if s.done then (s.fields, true)
    else if s.consumed == 0 then (m, false)
    else ParseFieldBlock(s.fields, data[s.consumed..])
  }

  /** The default map writes out as it should. */
  lemma DefaultHeadersWritable(n: int)
    ensures Writable(DefaultHeaders(n))
  {
    var h := DefaultHeaders(n);
    DefaultNamesWritable();
    ItoaWritable(n);
    assert h.Keys == {ContentLength, "connection", "content-type"};
  }

  /** The fixed names and values of the default map are written as they are. */
  lemma DefaultNamesWritable()
    ensures FieldName(ContentLength) && LowerCase(ContentLength)
    ensures FieldName("connection") && LowerCase("connection") && FieldValue("close")
    ensures FieldName("content-type") && LowerCase("content-type") && FieldValue("text/plain")
  {
  }

  /** A decimal spelling holds no white space, so trimming leaves it alone. */
  lemma ItoaWritable(n: int)
    ensures FieldValue(Itoa(n))
  {
    var s := Itoa(n);
    if n < 0 {
      var d := NatToDecimal(-n);
      assert s == "-" + d;
      assert d[|d| - 1] in d;
      assert s[|s| - 1] == d[|d| - 1];
      assert forall c <- s :: c == '-' || c in d;
    } else {
      assert s[0] in s && s[|s| - 1] in s;
    }
    assert '\r' !in s;
    NoCrNoCrlf(s);
  }

  /** The entries of `h` under the keys `order`. */
  function Restrict(h: Fields, order: seq<string>): (r: Fields)
    ensures forall k :: k in r <==> k in order && k in h
    ensures forall k <- r.Keys :: r[k] == h[k]
  {
    map k | k in order && k in h :: h[k]
  }

  /** No keys add nothing. */
  lemma RestrictEmpty(m: Fields, h: Fields)
    ensures m + Restrict(h, []) == m
  {
    assert Restrict(h, []) == map[];
  }

  /** Taking the first key out and adding its entry to `m` leaves the same union. */
  lemma RestrictCons(m: Fields, h: Fields, order: seq<string>)
    requires order != [] && order[0] in h
    ensures m[order[0] := h[order[0]]] + Restrict(h, order[1..]) == m + Restrict(h, order)
  {
    var k := order[0];
    assert forall j <- order :: j == k || j in order[1..];
  }

  /** Writing a header block and reading it back with the request parser: the
      lines are taken one at a time, done is reported with the last one (the blank
      line is left for the caller), and every entry comes back under its own key,
      added to what `m` already held. */
  lemma {:induction false} ParseSerializedFields(m: Fields, h: Fields, order: seq<string>, rest: string)
    requires Writable(h)
    requires forall k <- order :: k in h && k !in m
    requires forall i, j :: 0 <= i < j < |order| ==> order[i] != order[j]
    ensures ParseFieldBlock(m, SerializeFields(h, order) + CRLF + rest) == (m + Restrict(h, order), true)
    decreases |order|
  {
    var data := SerializeFields(h, order) + CRLF + rest;
    if order == [] {
      assert data == CRLF + rest;
      BlockBlank(m, rest);
      RestrictEmpty(m, h);
    } else {
      var first := order[0];
      var tail := SerializeFields(h, order[1..]) + CRLF + rest;
      assert data == FieldLine(first, h[first]) + tail;
      RestrictCons(m, h, order);
      if order[1..] == [] {
        assert tail == CRLF + rest;
        BlockLastField(m, h, first, rest);
        RestrictEmpty(m[first := h[first]], h);
      } else {
        NextLineNotBlank(h, order[1..], rest);
        BlockNextField(m, h, first, tail);
        TailOrder(m, h, order);
        ParseSerializedFields(m[first := h[first]], h, order[1..], rest);
      }
    }
  }

  /** The blank line ends the block. */
  lemma BlockBlank(m: Fields, rest: string)
    ensures ParseFieldBlock(m, CRLF + rest) == (m, true)
  {
    ParseLineBlank(m, CRLF + rest);
  }

  /** A field line followed by the blank line is the last entry of the block. */
  lemma BlockLastField(m: Fields, h: Fields, k: string, rest: string)
    requires Writable(h) && k in h && k !in m
    ensures ParseFieldBlock(m, FieldLine(k, h[k]) + (CRLF + rest)) == (m[k := h[k]], true)
  {
    ReadFieldLine(m, k, h[k], CRLF + rest);
  }

  /** A field line followed by more field lines adds its entry and goes on. */
  lemma BlockNextField(m: Fields, h: Fields, k: string, tail: string)
    requires Writable(h) && k in h && k !in m
    requires !CrlfAt(tail, 0)
    ensures ParseFieldBlock(m, FieldLine(k, h[k]) + tail) == ParseFieldBlock(m[k := h[k]], tail)
  {
    ReadFieldLine(m, k, h[k], tail);
    assert (FieldLine(k, h[k]) + tail)[|FieldLine(k, h[k])|..] == tail;
  }

  /** A written field line is read back as its own entry, under its own key. */
  lemma ReadFieldLine(m: Fields, k: string, v: string, tail: string)
    requires FieldName(k) && LowerCase(k) && FieldValue(v) && k !in m
    ensures ParseLine(m, FieldLine(k, v) + tail)
      == LineResult(|FieldLine(k, v)|, CrlfAt(tail, 0), false, m[k := v])
  {
    ParseFieldLine(m, k, v, tail);
    ToLowerIdentity(k);
  }

  /** A written header block that still has an entry does not start with CR LF. */
  lemma NextLineNotBlank(h: Fields, order: seq<string>, rest: string)
    requires Writable(h) && order != []
    requires forall k <- order :: k in h
    ensures !CrlfAt(SerializeFields(h, order) + CRLF + rest, 0)
  {
    var k := order[0];
    assert FieldName(k);
    assert k[0] in k;
    var s := SerializeFields(h, order) + CRLF + rest;
    assert s == FieldLine(k, h[k]) + (SerializeFields(h, order[1..]) + CRLF + rest);
    assert s[0] == k[0];
  }

  /** The keys after the first are still distinct, and none of them is the first. */
  lemma TailOrder(m: Fields, h: Fields, order: seq<string>)
    requires order != [] && order[0] in h
    requires forall k <- order :: k in h && k !in m
    requires forall i, j :: 0 <= i < j < |order| ==> order[i] != order[j]
    ensures forall j <- order[1..] :: j in h && j !in m[order[0] := h[order[0]]]
    ensures forall i, j :: 0 <= i < j < |order[1..]| ==> order[1..][i] != order[1..][j]
  {
    forall i, j | 0 <= i < j < |order[1..]| ensures order[1..][i] != order[1..][j] {
      assert order[1..][i] == order[i + 1] && order[1..][j] == order[j + 1];
    }
    forall j <- order[1..] ensures j in h && j !in m[order[0] := h[order[0]]] {
      var i :| 0 <= i < |order[1..]| && order[1..][i] == j;
      assert order[i + 1] == j;
    }
  }

  /** The bytes a complete header block puts on the wire: the field lines, then
      the blank line, `|k| + |v| + 4` bytes per entry and two more. */
  lemma HeaderBlockBytes(h: Fields, order: seq<string>)
    ensures Flatten(Lines(h, order) + [CRLF]) == SerializeFields(h, order) + CRLF
    ensures |Flatten(Lines(h, order) + [CRLF])| == LinesSize(h, order) + 2
  {
    FlattenAppend(Lines(h, order), [CRLF]);
    FlattenLines(h, order);
    SerializeFieldsLength(h, order);
    assert Flatten([CRLF]) == CRLF + Flatten([]);
  }

  /** What `WriteHeaders` writes when no field-line write fails is read back by
      the request parser as the very map written, whatever order the keys went
      out in. */
  lemma WrittenHeadersParseBack(h: Fields, order: seq<string>, rest: string)
    requires Writable(h)
    requires forall k :: k in h <==> k in order
    requires forall i, j :: 0 <= i < j < |order| ==> order[i] != order[j]
    ensures ParseFieldBlock(map[], SerializeFields(h, order) + CRLF + rest) == (h, true)
  {
    ParseSerializedFields(map[], h, order, rest);
    assert map[] + Restrict(h, order) == h;
  }
}
