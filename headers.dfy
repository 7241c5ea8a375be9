/** The header collection of internal/headers/headers.go: a map from lower-cased
    field names to values, filled one `name: value` line at a time, with repeated
    names folded into one comma-separated value. */
module Headers {
  import opened Text

  /** The value of the Go type `Headers` (a `map[string]string`). */
  type Fields = map<string, string>

  /** The symbols `checkForValidKey` accepts besides letters and digits. */
  const AllowedSymbols: seq<char> :=
    ['!', '#', '$', '%', '&', '\'', '*', '+', '-', '.', '^', '_', '`', '|', '~']

  /** A byte `checkForValidKey` accepts. The range 'A'..'z' takes in
      `[`, `\` and `]` as well as the letters. */
  predicate KeyChar(c: char): (r: bool)
    ensures r ==> c != ':' && !IsSpace(c) && c != '\r' && c != '\n'
  {
    ('A' <= c <= 'z') || ('0' <= c <= '9') || c in AllowedSymbols
  }

  /** `checkForValidKey` returns no error: the key is not exactly one byte long and
      every byte of it is a key byte. The empty key passes. */
  predicate ValidKey(key: string): (r: bool)
    ensures r ==> ':' !in key && forall c <- key :: !IsSpace(c)
  {
    |key| != 1 && forall c <- key :: KeyChar(c)
  }

  /** A `tchar` of section 5.6.2 of RFC 9110. */
  predicate TChar(c: char) {
    ('A' <= c <= 'Z') || ('a' <= c <= 'z') || ('0' <= c <= '9') || c in AllowedSymbols
  }

  /** The key check is RFC 9110's token alphabet plus exactly three more bytes. */
  lemma KeyCharIsTCharOrBracket(c: char)
    ensures KeyChar(c) <==> TChar(c) || c == '[' || c == '\\' || c == ']'
  {
  }

  /** What every map `Parse` has built satisfies: each key passed the key check and
      is lower-case. */
  predicate ValidFields(m: Fields) {
    forall k :: k in m ==> ValidKey(k) && LowerCase(k)
  }

  /** `Headers.Get`: the value stored under the lower-cased `key`, and whether there
      is one (Go's zero value "" when there is not). */
  function Lookup(m: Fields, key: string): (r: (string, bool))
    ensures r.1 ==> r.0 in m.Values
    ensures !r.1 ==> r.0 == ""
  {
    var k := ToLower(key);
    if k in m then (m[k], true) else ("", false)
  }

  /** Over a map `Parse` built, lookup ignores case: it finds an entry exactly when
      some stored key equals `key` up to case, and then returns that entry. */
  lemma LookupCaseInsensitive(m: Fields, key: string)
    requires ValidFields(m)
    ensures Lookup(m, key).1 <==> exists k :: k in m && ToLower(k) == ToLower(key)
    ensures forall k :: k in m && ToLower(k) == ToLower(key) ==> Lookup(m, key) == (m[k], true)
    ensures !Lookup(m, key).1 ==> Lookup(m, key).0 == ""
  {
    var lk := ToLower(key);
    ToLowerIdentity(lk);
    forall k | k in m && ToLower(k) == lk
      ensures Lookup(m, key) == (m[k], true)
    {
      ToLowerIdentity(k);
    }
  }

  /** Lookup ignores case whenever the map holds only valid lower-case keys. */
  lemma GetIgnoresCase(m: Fields, key: string)
    ensures ValidFields(m) ==> (Lookup(m, key).1 <==> exists k :: k in m && ToLower(k) == ToLower(key))
  {
    if ValidFields(m) {
      LookupCaseInsensitive(m, key);
    }
  }

  /** The field that sizes a message body: the key the request parser looks up
      and the response's default headers set. */
  const ContentLength: string := "content-length"

  /** A field line `name: value` with its CR LF, as section 5 of RFC 9112 writes it. */
  function FieldLine(name: string, value: string): string {
    name + ": " + value + CRLF
  }

  /** What one call of `Headers.Parse` returns, with the map it leaves behind. */
  datatype LineResult = LineResult(consumed: nat, done: bool, failed: bool, fields: Fields)

  /** The checks `Parse` makes on a complete line (its CR LF cut off): a colon,
      neither at the start nor right after a space, and a name before it that
      passes the key check once trimmed and lower-cased. On success, that key and
      the value after the colon, trimmed. */
  function SplitField(line: string): (r: Option<(string, string)>)
    ensures r.Some? ==> ':' in line && ValidKey(r.value.0) && LowerCase(r.value.0)
  {
    var colon := IndexOf(line, ':');
    if colon == -1 || colon == 0 then
      None
    else if line[colon - 1] == ' ' then
      None
    else
      var key := ToLower(TrimSpace(line[..colon]));
      if !ValidKey(key) then None else Some((key, TrimSpace(line[colon + 1..])))
  }

  /** One call of `Headers.Parse` on the buffered bytes `data`, with the map `m` it
      starts from. Done is the test that the first CR LF after the line sits at
      offset 0, that is, a CR LF follows the line's own at once. */
  function ParseLine(m: Fields, data: string): (r: LineResult)
    ensures r.consumed <= |data|
    ensures r.failed ==> r.consumed == 0 && !r.done && r.fields == m
  {
    var idx := IndexCrlf(data);
    if idx == -1 then
      LineResult(0, false, false, m)
    else if idx == 0 then
      LineResult(2, true, false, m)
    else
      var split := SplitField(data[..idx]);
      if split.None? then
        LineResult(0, false, true, m)
      else
        var (key, value) := split.value;
        var stored := if key in m then m[key] + ", " + value else value;
        LineResult(idx + 2, CrlfAt(data, idx + 2), false, m[key := stored])
  }

  /** Without a complete line in the buffer `Parse` asks for more input, and that
      answer (nothing consumed, not done, no error, map unchanged) means exactly that. */
  lemma ParseLineNeedsMore(m: Fields, data: string)
    ensures ParseLine(m, data) == LineResult(0, false, false, m) <==> NoCrlf(data)
  {
  }

  /** A CR LF at the very start is the blank line that ends the block: two bytes
      consumed, done, map unchanged. */
  lemma ParseLineBlank(m: Fields, data: string)
    requires CrlfAt(data, 0)
    ensures ParseLine(m, data) == LineResult(2, true, false, m)
  {
  }

  /** A complete, non-empty line without a colon is an error that consumes nothing
      and leaves the map alone. */
  lemma ParseLineNoColon(m: Fields, data: string, line: string)
    requires |line| <= |data| && data[..|line|] == line && CrlfAt(data, |line|)
    requires line != [] && NoCrlf(line)
    requires ':' !in line
    ensures ParseLine(m, data) == LineResult(0, false, true, m)
  {
    assert data[..|line| + 2] == line + CRLF;
    forall i | 0 <= i < |line| ensures !CrlfAt(data, i) {
      if i < |line| - 1 {
        assert !CrlfAt(line, i);
      }
    }
    FirstCrlf(data, |line|);
  }

  /** How a line `name:rest` whose name holds no colon is split: rejected exactly
      when the name is empty, ends in a space, or fails the key check once trimmed
      and lower-cased; otherwise the key is that trimmed, lower-cased name and the
      value is `rest` trimmed. */
  lemma SplitFieldAt(name: string, rest: string)
    requires ':' !in name
    ensures var key := ToLower(TrimSpace(name));
      SplitField(name + ":" + rest)
        == if name == [] || name[|name| - 1] == ' ' || !ValidKey(key) then None
           else Some((key, TrimSpace(rest)))
  {
    var line := name + ":" + rest;
    IndexOfAfter(name, ':', rest);
    assert line[..|name|] == name;
    assert line[|name| + 1..] == rest;
    if name != [] {
      assert line[|name| - 1] == name[|name| - 1];
    }
  }

  /** A complete line `name:rest` whose name holds no colon is an error (nothing
      consumed, map unchanged) exactly when the name is empty, ends in a space, or
      fails the key check once trimmed and lower-cased. Otherwise the line and its
      CR LF are consumed, the trimmed value is added under the key or folded into
      the value already there after ", ", and done says whether another CR LF
      follows at once. */
  lemma ParseLineField(m: Fields, data: string, name: string, rest: string)
    requires var n := |name| + 1 + |rest|;
      n <= |data| && data[..n] == name + ":" + rest && CrlfAt(data, n) && NoCrlf(name + ":" + rest)
    requires ':' !in name
    ensures var r := ParseLine(m, data);
      var key := ToLower(TrimSpace(name));
      var value := TrimSpace(rest);
      && (r.failed <==> name == [] || name[|name| - 1] == ' ' || !ValidKey(key))
      && (!r.failed ==>
            && r.consumed == |name| + 1 + |rest| + 2
            && (r.done <==> CrlfAt(data, |name| + 1 + |rest| + 2))
            && r.fields == m[key := if key in m then m[key] + ", " + value else value])
  {
    var line := name + ":" + rest;
    var n := |line|;
    FieldLineEnd(data, line);
    SplitFieldAt(name, rest);
    assert data[..n] == line;
  }

  /** A line with no CR LF inside, followed by CR LF, ends where the CR LF starts. */
  lemma FieldLineEnd(data: string, line: string)
    requires |line| <= |data| && data[..|line|] == line && CrlfAt(data, |line|) && NoCrlf(line)
    ensures IndexCrlf(data) == |line|
  {
    var n := |line|;
    forall i | 0 <= i < n ensures !CrlfAt(data, i) {
      if i < n - 1 {
        assert data[i] == line[i] && data[i + 1] == line[i + 1];
        assert !CrlfAt(line, i);
      } else {
        assert data[i + 1] == '\r';
      }
    }
    FirstCrlf(data, n);
  }

  /** `ParseLine` keeps the invariant of a header map: every key is a lower-case
      key that passed the key check. */
  lemma ParseLinePreservesValid(m: Fields, data: string)
    ensures ValidFields(m) ==> ValidFields(ParseLine(m, data).fields)
  {
    var idx := IndexCrlf(data);
    if idx > 0 && SplitField(data[..idx]).Some? {
      var key := SplitField(data[..idx]).value.0;
      assert LowerCase(key);
    }
  }

  /** A field name `checkForValidKey` accepts at any case: two or more key bytes. */
  predicate FieldName(name: string) {
    |name| >= 2 && forall c <- name :: KeyChar(c)
  }

  /** A field value that trimming leaves as it is and that holds no CR LF. */
  predicate FieldValue(value: string) {
    Trimmed(value) && NoCrlf(value)
  }

  /** What the key check makes of a name it accepts at any case: it holds no colon,
      no white space and no CR, and its lower-case form passes the check too. */
  lemma FieldNameFacts(name: string)
    requires FieldName(name)
    ensures ':' !in name && '\r' !in name
    ensures TrimSpace(name) == name && name[|name| - 1] != ' '
    ensures ValidKey(ToLower(name))
  {
    forall c <- name ensures c != ':' && c != '\r' && !IsSpace(c) { assert KeyChar(c); }
    assert name[0] in name && name[|name| - 1] in name;
    TrimSpaceKeeps(name);
    var key := ToLower(name);
    forall c <- key ensures KeyChar(c) {
      var i :| 0 <= i < |key| && key[i] == c;
      assert name[i] in name;
    }
  }

  /** A field line holds no CR LF before its own. */
  lemma FieldLineNoCrlf(name: string, value: string)
    requires FieldName(name) && FieldValue(value)
    ensures NoCrlf(name + ":" + " " + value)
  {
    FieldNameFacts(name);
    var head := name + ":" + " ";
    assert '\r' !in head by {
      assert forall c <- head :: c in name || c == ':' || c == ' ';
    }
    NoCrNoCrlf(head);
    NoCrlfConcat(head, value);
  }

  /** Parsing what `FieldLine` writes gives back the name, lower-cased, and the value:
      the line and its CR LF are consumed, done reports whether a blank line
      follows, and the value is added or folded under the name. */
  lemma ParseFieldLine(m: Fields, name: string, value: string, rest: string)
    requires FieldName(name) && FieldValue(value)
    ensures var r := ParseLine(m, FieldLine(name, value) + rest);
      var key := ToLower(name);
      && !r.failed
      && r.consumed == |FieldLine(name, value)|
      && r.done == CrlfAt(rest, 0)
      && r.fields == m[key := if key in m then m[key] + ", " + value else value]
  {
    var data := FieldLine(name, value) + rest;
    var body := " " + value;
    var line := name + ":" + body;
    var n := |line|;
    assert data[..n] == line && CrlfAt(data, n) && NoCrlf(line) by {
      assert line == name + ":" + " " + value;
      assert data == line + CRLF + rest;
      FieldLineNoCrlf(name, value);
    }
    assert CrlfAt(data, n + 2) <==> CrlfAt(rest, 0) by {
      assert data == line + CRLF + rest;
      assert data[n + 2..] == rest;
    }
    FieldNameFacts(name);
    TrimSpaceAfterSpace(value);
    ParseLineField(m, data, name, body);
  }

  /** The line of internal/headers/headers_test.go:12-19, followed by the blank line:
      `Parse` reports done, since a CR LF follows the line at once. The test expects
      done to be false. */
  lemma ParseLineSingleHostIsDone()
    ensures ParseLine(map[], "Host: localhost:42069\r\n\r\n")
              == LineResult(23, true, false, map["host" := "localhost:42069"])
  {
    var value := "localhost:42069";
    assert '\r' !in value;
    assert FieldValue(value);
    assert FieldName("Host");
    assert FieldLine("Host", value) + CRLF == "Host: localhost:42069\r\n\r\n";
    assert ToLower("Host") == "host";
    ParseFieldLine(map[], "Host", value, CRLF);
    assert CrlfAt(CRLF, 0);
  }

  /** The Go type `Headers`, a map that `Parse` fills in place. */
  class Headers {
    var entries: Fields

    /** `NewHeaders`: an empty map. */
    constructor ()
      ensures entries == map[]
    {
      entries := map[];
    }

    /** `Headers.Get`. Over a map `Parse` built, it ignores the case of `key`. */
    function Get(key: string): (r: (string, bool))
      reads this
      ensures r.1 <==> ToLower(key) in entries
      ensures r.0 == if r.1 then entries[ToLower(key)] else ""
      ensures ValidFields(entries) ==> (r.1 <==> exists k :: k in entries && ToLower(k) == ToLower(key))
    {
      GetIgnoresCase(entries, key);
      Lookup(entries, key)
    }

    /** `Headers.Parse`: consume at most one header line of `data` and insert or fold
        its entry; report how much was consumed, whether the blank line that ends the
        block follows, and whether the line was rejected. */
    method Parse(data: string) returns (n: nat, done: bool, failed: bool)
      modifies this
      ensures LineResult(n, done, failed, entries) == ParseLine(old(entries), data)
      ensures n <= |data|
      ensures failed ==> n == 0 && entries == old(entries)
    {
      ghost var before := entries;
      var idx := IndexCrlf(data);
      if idx == -1 {
        return 0, false, false;
      }
      if idx == 0 {
        return 2, true, false;
      }
      var line := data[..idx];
      var colon := IndexOf(line, ':');
      if colon == -1 || colon == 0 {
        assert SplitField(line).None?;
        return 0, false, true;
      }
      if line[colon - 1] == ' ' {
        assert SplitField(line).None?;
        return 0, false, true;
      }
      var key := ToLower(TrimSpace(line[..colon]));
      var value := TrimSpace(line[colon + 1..]);
      if !ValidKey(key) {
        assert SplitField(line).None?;
        return 0, false, true;
      }
      assert SplitField(line) == Some((key, value));
      if key in entries {
        entries := entries[key := entries[key] + ", " + value];
      } else {
        entries := entries[key := value];
      }
      var next := IndexCrlf(data[idx + 2..]);
      assert next == 0 <==> CrlfAt(data, idx + 2) by {
        assert CrlfAt(data[idx + 2..], 0) <==> CrlfAt(data, idx + 2);
      }
      assert ParseLine(before, data) == LineResult(idx + 2, next == 0, false, entries);
      if next == 0 {
        return idx + 2, true, false;
      }
      return idx + 2, false, false;
    }
  }
}
