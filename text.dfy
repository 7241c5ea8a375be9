/** ASCII stand-ins for the Go standard-library calls the HTTP engine makes:
    `bytes.Index(s, "\r\n")`, `strings.Index(s, ":")`, `strings.Split`,
    `strings.ToLower`, `strings.TrimSpace`, `strconv.Atoi` and `strconv.Itoa`.
    A `string` here is a byte string: every `char` stands for one byte. */
module Text {

  datatype Option<+T> = None | Some(value: T)

  const CRLF: string := "\r\n"

  /** A CR LF pair starts at offset `i` of `s`. */
  predicate CrlfAt(s: string, i: int) {
    0 <= i < |s| - 1 && s[i] == '\r' && s[i + 1] == '\n'
  }

  /** `s` holds no CR LF pair anywhere. */
  predicate NoCrlf(s: string) {
    forall i :: 0 <= i < |s| ==> !CrlfAt(s, i)
  }

  /** A string without a CR holds no CR LF. */
  lemma NoCrNoCrlf(s: string)
    requires '\r' !in s
    ensures NoCrlf(s)
  {
    forall i | 0 <= i < |s| ensures !CrlfAt(s, i) {
      assert s[i] in s;
    }
  }

  /** A piece of a string without a CR LF holds none either. */
  lemma NoCrlfSlice(s: string, i: int, j: int)
    requires NoCrlf(s) && 0 <= i <= j <= |s|
    ensures NoCrlf(s[i..j])
  {
    forall k | 0 <= k < j - i ensures !CrlfAt(s[i..j], k) {
      assert !CrlfAt(s, i + k);
    }
  }

  /** Two strings without a CR LF inside hold none when put together, so long as
      the first does not end in CR. */
  lemma NoCrlfConcat(a: string, b: string)
    requires NoCrlf(a) && NoCrlf(b)
    requires a == [] || a[|a| - 1] != '\r'
    ensures NoCrlf(a + b)
  {
    var s := a + b;
    forall i | 0 <= i < |s| ensures !CrlfAt(s, i) {
      if i < |a| - 1 {
        assert !CrlfAt(a, i);
      } else if i >= |a| {
        assert !CrlfAt(b, i - |a|);
      }
    }
  }

  /** `bytes.Index(s, "\r\n")`: the offset of the first CR LF pair, or -1. */
  function IndexCrlf(s: string): (r: int)
    ensures r == -1 <==> NoCrlf(s)
    ensures r != -1 ==> CrlfAt(s, r) && forall i :: 0 <= i < r ==> !CrlfAt(s, i)
    decreases |s|
  {
    if |s| < 2 then
      -1
    else if s[0] == '\r' && s[1] == '\n' then
      assert CrlfAt(s, 0);
      0
    else
      var j := IndexCrlf(s[1..]);
      assert forall i :: CrlfAt(s, i + 1) <==> CrlfAt(s[1..], i);
      assert forall i :: CrlfAt(s, i) ==> i == 0 || CrlfAt(s[1..], i - 1);
      if j == -1 then -1 else j + 1
  }

  /** The first CR LF of `s` is at offset `k`. */
  lemma FirstCrlf(s: string, k: nat)
    requires CrlfAt(s, k)
    requires forall i :: 0 <= i < k ==> !CrlfAt(s, i)
    ensures IndexCrlf(s) == k
  {
  }

  /** Cutting `s` just after a CR LF keeps the part before it and the CR LF. */
  lemma CrlfSlice(s: string, i: int)
    requires CrlfAt(s, i)
    ensures s[..i + 2] == s[..i] + CRLF
  {
    var a := s[..i + 2];
    var b := s[..i] + CRLF;
    assert |a| == |b|;
    forall k | 0 <= k < |a| ensures a[k] == b[k] {
      if k == i {
        assert b[k] == '\r';
      } else if k == i + 1 {
        assert b[k] == '\n';
      }
    }
  }

  /** The first CR LF of a line with no CR LF inside, followed by CR LF, is the one
      that ends it. */
  lemma CrlfAfter(line: string, rest: string)
    requires NoCrlf(line)
    ensures IndexCrlf(line + CRLF + rest) == |line|
    ensures (line + CRLF + rest)[..|line|] == line
  {
    var s := line + CRLF + rest;
    assert CrlfAt(s, |line|);
    forall i | 0 <= i < |line| ensures !CrlfAt(s, i) {
      if i < |line| - 1 {
        assert !CrlfAt(line, i);
      }
    }
    FirstCrlf(s, |line|);
  }

  /** `strings.Index(s, string(c))` for a single byte `c`: its first offset, or -1. */
  function IndexOf(s: string, c: char): (r: int)
    ensures r == -1 <==> c !in s
    ensures r != -1 ==> 0 <= r < |s| && s[r] == c && c !in s[..r]
  {
    if s == [] then
      -1
    else if s[0] == c then
      0
    else
      var j := IndexOf(s[1..], c);
      assert j != -1 ==> s[..j + 1] == [s[0]] + s[1..][..j];
      assert s == [s[0]] + s[1..];
      if j == -1 then -1 else j + 1
  }

  /** The first `c` in `a + [c] + b` is the one after `a`. */
  lemma IndexOfAfter(a: string, c: char, b: string)
    requires c !in a
    ensures IndexOf(a + [c] + b, c) == |a|
  {
    var s := a + [c] + b;
    assert s[|a|] == c;
    assert s[..|a|] == a;
  }

  /** The parts `Split` cuts `s` into, put back together. */
  function Join(parts: seq<string>, sep: char): string
    requires |parts| >= 1
  {
    if |parts| == 1 then parts[0] else parts[0] + [sep] + Join(parts[1..], sep)
  }

  /** `strings.Split(s, string(sep))`: the pieces of `s` between the `sep` bytes,
      always at least one (the whole of `s` when it holds no `sep`). */
  function Split(s: string, sep: char): (parts: seq<string>)
    ensures |parts| >= 1
    ensures forall p <- parts :: sep !in p
    ensures Join(parts, sep) == s
    ensures |parts| == 1 <==> sep !in s
    decreases |s|
  {
    var i := IndexOf(s, sep);
    if i == -1 then
      [s]
    else
      var rest := Split(s[i + 1..], sep);
      assert ([s[..i]] + rest)[1..] == rest;
      assert s == s[..i] + [sep] + s[i + 1..];
      [s[..i]] + rest
  }

  /** `Split` undoes `Join` when no part holds the separator. */
  lemma {:induction false} SplitJoin(parts: seq<string>, sep: char)
    requires |parts| >= 1
    requires forall p <- parts :: sep !in p
    ensures Split(Join(parts, sep), sep) == parts
  {
    if |parts| > 1 {
      var tail := Join(parts[1..], sep);
      var s := parts[0] + [sep] + tail;
      assert Join(parts, sep) == s;
      IndexOfAfter(parts[0], sep, tail);
      assert s[..|parts[0]|] == parts[0];
      assert s[|parts[0]| + 1..] == tail;
      SplitJoin(parts[1..], sep);
      assert Split(s, sep) == [parts[0]] + Split(tail, sep);
      assert parts == [parts[0]] + parts[1..];
    } else {
      assert sep !in parts[0];
    }
  }

  /** Joining two parts puts one separator between them. */
  lemma JoinTwo(a: string, b: string, sep: char)
    ensures Join([a, b], sep) == a + [sep] + b
  {
    assert [a, b][1..] == [b];
  }

  /** Joining three parts puts one separator between each neighbouring pair. */
  lemma JoinThree(a: string, b: string, c: string, sep: char)
    ensures Join([a, b, c], sep) == a + [sep] + b + [sep] + c
  {
    assert [a, b, c][1..] == [b, c];
    JoinTwo(b, c, sep);
  }

  /** The byte `strings.ToLower` gives for an ASCII byte. */
  function LowerChar(c: char): char {
    if 'A' <= c <= 'Z' then (c as int + 32) as char else c
  }

  predicate IsUpper(c: char) {
    'A' <= c <= 'Z'
  }

  /** No ASCII upper-case letter in `s`. */
  predicate LowerCase(s: string) {
    forall c <- s :: !IsUpper(c)
  }

  /** `strings.ToLower` on ASCII: each upper-case letter becomes its lower-case one. */
  function ToLower(s: string): (r: string)
    ensures |r| == |s| && LowerCase(r)
    ensures forall i :: 0 <= i < |s| ==> r[i] == LowerChar(s[i])
  {
    seq(|s|, i requires 0 <= i < |s| => LowerChar(s[i]))
  }

  /** A string with no upper-case letter is its own lower-case form. */
  lemma ToLowerIdentity(s: string)
    requires LowerCase(s)
    ensures ToLower(s) == s
  {
    assert forall i :: 0 <= i < |s| ==> !IsUpper(s[i]);
  }

  /** The ASCII bytes `strings.TrimSpace` strips: HT, LF, VT, FF, CR and space. */
  predicate IsSpace(c: char) {
    c == ' ' || '\t' <= c <= '\r'
  }

  /** The first offset at or after `i` that does not hold white space (`|s|` when
      there is none). */
  function SkipSpace(s: string, i: nat): (k: nat)
    requires i <= |s|
    ensures i <= k <= |s| && (k < |s| ==> !IsSpace(s[k]))
    decreases |s| - i
  {
    if i < |s| && IsSpace(s[i]) then SkipSpace(s, i + 1) else i
  }

  /** The offset just after the last byte before `j` that does not hold white space
      (0 when there is none). */
  function BackSpace(s: string, j: nat): (k: nat)
    requires j <= |s|
    ensures k <= j && (k > 0 ==> !IsSpace(s[k - 1]))
  {
    if j > 0 && IsSpace(s[j - 1]) then BackSpace(s, j - 1) else j
  }

  /** What `SkipSpace` passes over is white space. */
  lemma {:induction false} SkipSpaceSkipsSpace(s: string, i: nat)
    requires i <= |s|
    ensures forall j :: i <= j < SkipSpace(s, i) ==> IsSpace(s[j])
    decreases |s| - i
  {
    if i < |s| && IsSpace(s[i]) {
      SkipSpaceSkipsSpace(s, i + 1);
    }
  }

  /** What `BackSpace` passes over is white space. */
  lemma {:induction false} BackSpaceSkipsSpace(s: string, j: nat)
    requires j <= |s|
    ensures forall i :: BackSpace(s, j) <= i < j ==> IsSpace(s[i])
  {
    if j > 0 && IsSpace(s[j - 1]) {
      BackSpaceSkipsSpace(s, j - 1);
    }
  }

  /** `strings.TrimSpace` on ASCII: the part of `s` between its leading and its
      trailing white space. */
  function TrimSpace(s: string): (r: string)
    ensures r == [] || (!IsSpace(r[0]) && !IsSpace(r[|r| - 1]))
  {
    var lo := SkipSpace(s, 0);
    var hi := BackSpace(s, |s|);
    if hi <= lo then [] else s[lo..hi]
  }

  /** Trimming removes white space only: what is left sits in `s` between two runs
      of white space, and it is empty only when `s` is all white space. */
  lemma TrimSpaceRemovesSpace(s: string)
    ensures exists lo, hi :: 0 <= lo <= hi <= |s| && TrimSpace(s) == s[lo..hi]
              && (forall i :: 0 <= i < lo ==> IsSpace(s[i]))
              && (forall i :: hi <= i < |s| ==> IsSpace(s[i]))
  {
    var lo := SkipSpace(s, 0);
    var hi := BackSpace(s, |s|);
    SkipSpaceSkipsSpace(s, 0);
    BackSpaceSkipsSpace(s, |s|);
    if hi <= lo {
      assert TrimSpace(s) == s[lo..lo];
    } else {
      assert TrimSpace(s) == s[lo..hi];
    }
  }

  /** `s` has no white space at either end. */
  predicate Trimmed(s: string) {
    s == [] || (!IsSpace(s[0]) && !IsSpace(s[|s| - 1]))
  }

  /** Trimming removes exactly the white space around `s`: one space before a
      trimmed string is all that goes. */
  lemma TrimSpaceAfterSpace(s: string)
    requires Trimmed(s)
    ensures TrimSpace(" " + s) == s
  {
    var t := " " + s;
    assert SkipSpace(t, 0) == SkipSpace(t, 1) == 1;
    if s == [] {
      assert BackSpace(t, 1) == BackSpace(t, 0) == 0;
    } else {
      assert t[|t| - 1] == s[|s| - 1];
      assert BackSpace(t, |t|) == |t|;
      assert t[1..] == s;
    }
  }

  /** A string with no white space at either end is its own trimmed form. */
  lemma TrimSpaceKeeps(s: string)
    requires s != [] && !IsSpace(s[0]) && !IsSpace(s[|s| - 1])
    ensures TrimSpace(s) == s
  {
    assert SkipSpace(s, 0) == 0 && BackSpace(s, |s|) == |s|;
    assert s[0..|s|] == s;
  }

  predicate IsDigit(c: char) {
    '0' <= c <= '9'
  }

  predicate AllDigits(s: string) {
    forall c <- s :: IsDigit(c)
  }

  /** The number a string of decimal digits denotes. */
  function DecimalValue(s: string): nat
    requires AllDigits(s)
  {
    if s == [] then 0
    else
      assert forall c <- s[..|s| - 1] :: c in s;
      assert IsDigit(s[|s| - 1]);
      10 * DecimalValue(s[..|s| - 1]) + (s[|s| - 1] as int - '0' as int)
  }

  /** `strconv.Atoi`: an optional `+` or `-` followed by at least one decimal digit;
      anything else is a syntax error (None). A `-` negates the digits' value. */
  function Atoi(s: string): (r: Option<int>)
    ensures r.Some? ==> s != [] && (IsDigit(s[0]) || s[0] == '+' || s[0] == '-')
    ensures AllDigits(s) && s != [] ==> r == Some(DecimalValue(s))
  {
    assert s != [] ==> s[0] in s;
    var signed := s != [] && (s[0] == '+' || s[0] == '-');
    var digits := if signed then s[1..] else s;
    if digits == [] || !AllDigits(digits) then None
    else if signed && s[0] == '-' then Some(0 - DecimalValue(digits) as int)
    else Some(DecimalValue(digits))
  }

  /** What `Atoi` accepts, exactly: a digit or a sign first, at least one byte
      after a sign, and nothing but digits after the first byte. */
  lemma AtoiAccepts(s: string)
    ensures Atoi(s).Some? <==>
      && s != []
      && (IsDigit(s[0]) || (|s| > 1 && (s[0] == '+' || s[0] == '-')))
      && forall i :: 0 < i < |s| ==> IsDigit(s[i])
  {
    if s != [] {
      assert forall i :: 0 < i < |s| ==> s[i] == s[1..][i - 1];
      assert forall c <- s[1..] :: exists i :: 0 < i < |s| && c == s[i];
      if !IsDigit(s[0]) && s[0] != '+' && s[0] != '-' {
        assert s[0] in s;
      }
    }
  }

  /** A sign before the digits: `+` keeps their value and `-` negates it. */
  lemma AtoiSigned(d: string)
    requires d != [] && AllDigits(d)
    ensures Atoi("+" + d) == Some(DecimalValue(d))
    ensures Atoi("-" + d) == Some(0 - DecimalValue(d) as int)
  {
    AtoiAfterSign('+', d);
    AtoiAfterSign('-', d);
  }

  lemma AtoiAfterSign(sign: char, d: string)
    requires sign == '+' || sign == '-'
    requires d != [] && AllDigits(d)
    ensures Atoi([sign] + d) == Some(if sign == '-' then 0 - DecimalValue(d) as int else DecimalValue(d))
  {
    var s := [sign] + d;
    assert s[0] == sign && s[1..] == d;
  }

  function DigitChar(d: nat): (c: char)
    requires d < 10
    ensures IsDigit(c) && c as int - '0' as int == d
  {
    ('0' as int + d) as char
  }

  /** The shortest decimal spelling of `n`. */
  function NatToDecimal(n: nat): (s: string)
    ensures s != [] && AllDigits(s) && DecimalValue(s) == n
    ensures s[0] == '0' ==> n == 0
  {
    if n < 10 then
      [DigitChar(n)]
    else
      var prefix := NatToDecimal(n / 10);
      var s := prefix + [DigitChar(n % 10)];
      assert s[..|s| - 1] == prefix;
      s
  }

  /** `strconv.Itoa`: the decimal spelling of `n`, with a leading `-` when negative.
      `Atoi` reads it back as `n`. */
  function Itoa(n: int): (s: string)
    ensures s != []
    ensures Atoi(s) == Some(n)
  {
    if n < 0 then
      var d := NatToDecimal(-n);
      assert ("-" + d)[1..] == d;
      "-" + d
    else
      NatToDecimal(n)
  }
}
