/** String and number tokens as values: decoding, comparing and escaping (sjson.c). */
module JsonStrings {
  import opened Wrappers
  import opened JsonLexer
  import opened JsonTokens

  lemma SliceOfSlice(s: string, a: nat, b: nat, i: nat, j: nat)
    requires a <= b <= |s| && i <= j <= b - a
    ensures s[a..b][i..j] == s[a + i..a + j]
  {
    var m := s[a..b];
    forall k | 0 <= k < j - i ensures m[i..j][k] == s[a + i..a + j][k] {
      assert m[i..j][k] == m[i + k];
    }
  }

  // ---- C strings ----

  predicate NulFree(s: string)
  {
    forall i | 0 <= i < |s| :: s[i] != '\0'
  }

  /** The C string that starts at the front of a buffer */
  function CString(s: string): (r: string)
    ensures NulFree(r) && |r| <= |s| && r == s[..|r|] && At(s, |r|) == '\0'
  {
    if s == "" || s[0] == '\0' then "" else [s[0]] + CString(s[1..])
  }

  lemma {:induction false} CStringUnique(s: string, r: string)
    requires NulFree(r) && r <= s && At(s, |r|) == '\0'
    ensures CString(s) == r
    decreases r
  {
    if r != "" {
      assert r[0] == s[0] && r[1..] == s[1..|r|];
      CStringUnique(s[1..], r[1..]);
    }
  }

  lemma {:induction false} CStringPrefix(s: string, p: string)
    requires NulFree(p) && p <= s
    ensures p <= CString(s)
    decreases p
  {
    if p != "" {
      assert p[0] == s[0] && p[1..] == s[1..|p|];
      CStringPrefix(s[1..], p[1..]);
      assert p == [p[0]] + p[1..];
    }
  }

  lemma {:induction false} CStringOfNulFree(s: string)
    requires NulFree(s)
    ensures CString(s) == s
  {
    CStringUnique(s, s);
  }

  // ---- Decoding ----

  function HexValue(c: char): (n: nat)
    requires HexDigit(c)
    ensures n < 16
  {
    if Digit(c) then c as int - '0' as int
    else if 'a' <= c then c as int - 'a' as int + 10
    else c as int - 'A' as int + 10
  }

  function CodePoint(u: string): (n: nat)
    requires |u| == 4 && forall i | 0 <= i < 4 :: HexDigit(u[i])
    ensures n < 0x10000
  {
    ((HexValue(u[0]) * 16 + HexValue(u[1])) * 16 + HexValue(u[2])) * 16 + HexValue(u[3])
  }

  /** g_unichar_to_utf8 below 0x10000, as bytes; surrogates are encoded like any other number */
  function Utf8(n: nat): (r: string)
    requires n < 0x10000
    ensures 1 <= |r| <= 3
  {
    if n < 0x80 then [n as char]
    else if n < 0x800 then [(0xC0 + n / 64) as char, (0x80 + n % 64) as char]
    else [(0xE0 + n / 4096) as char, (0x80 + n / 64 % 64) as char, (0x80 + n % 64) as char]
  }

  function Unescape(c: char): char
  {
    match c
    case 'b' => '\U{08}'
    case 'n' => '\n'
    case 'r' => '\r'
    case 't' => '\t'
    case 'f' => '\U{0c}'
    case _ => c
  }

  /** What a string body stands for */
  function Decode(x: string): string
    requires IsBody(x)
  {
    if x == "" then ""
    else if PlainChar(x[0]) then [x[0]] + Decode(x[1..])
    else if CtlChar(x[1]) then [Unescape(x[1])] + Decode(x[2..])
    else UnicodeAt(x) + Decode(x[6..])
  }

  function UnicodeAt(x: string): string
    requires |x| >= 6 && forall i | 2 <= i < 6 :: HexDigit(x[i])
  {
    Utf8(CodePoint(x[2..6]))
  }

  lemma {:induction false} DecodePlain(x: string)
    requires AllPlain(x)
    ensures IsBody(x) && Decode(x) == x
  {
    if x != "" {
      DecodePlain(x[1..]);
    }
  }

  /** How many characters of a body make up its first element */
  function HeadLength(x: string): (k: nat)
    requires IsBody(x) && x != ""
    ensures 0 < k <= |x| && IsBody(x[k..])
  {
    if PlainChar(x[0]) then 1 else if CtlChar(x[1]) then 2 else 6
  }

  /** What the first element of a body stands for */
  function DecodeHead(x: string): string
    requires IsBody(x) && x != ""
  {
    if PlainChar(x[0]) then [x[0]] else if CtlChar(x[1]) then [Unescape(x[1])] else UnicodeAt(x)
  }

  lemma {:induction false} DecodeUnfold(x: string, k: nat, tail: string)
    requires IsBody(x) && x != "" && k == HeadLength(x) && tail == x[k..]
    ensures IsBody(tail) && Decode(x) == DecodeHead(x) + Decode(tail)
  {
  }

  lemma {:induction false} HeadOfAppend(x: string, y: string, k: nat)
    requires IsBody(x) && x != "" && IsBody(x + y) && k == HeadLength(x)
    ensures HeadLength(x + y) == k && DecodeHead(x + y) == DecodeHead(x) && (x + y)[k..] == x[k..] + y
  {
    if k == 6 {
      assert (x + y)[2..6] == x[2..6];
    }
  }

  lemma {:induction false} DecodeAppend(x: string, y: string)
    requires IsBody(x) && IsBody(y)
    ensures IsBody(x + y) && Decode(x + y) == Decode(x) + Decode(y)
    decreases x
  {
    BodyAppend(x, y);
    if x == "" {
      assert x + y == y;
    } else {
      var k := HeadLength(x);
      var tail := x[k..];
      HeadOfAppend(x, y, k);
      DecodeAppend(tail, y);
      DecodeUnfold(x, k, tail);
      DecodeUnfold(x + y, k, tail + y);
      Assoc(DecodeHead(x), Decode(tail), Decode(y));
    }
  }

  /** The body of the string token that comes next */
  function BodyAt(text: string, pos: nat): (x: string)
    requires pos <= |text| && StringKind(NextToken(text, pos).kind)
    ensures IsBody(x) && NextToken(text, pos).end >= NextToken(text, pos).start + 2
    ensures NextToken(text, pos).kind == NoescString ==> AllPlain(x)
    ensures LexemeAt(text, NextToken(text, pos)).text == "\"" + x + "\""
  {
    var t := NextToken(text, pos);
    BodyLemma(text, pos);
    Inner(LexemeAt(text, t).text)
  }

  lemma {:induction false} BodyOfLexeme(x: Lexeme)
    requires Genuine(x) && StringKind(x.kind)
    ensures Quoted(x.text) && IsBody(Inner(x.text)) && (x.kind == NoescString ==> AllPlain(Inner(x.text)))
  {
    GenuineByRules(x);
    if x.kind == NoescString {
      PlainIsBody(Inner(x.text));
    }
  }

  lemma {:induction false} BodyLemma(text: string, pos: nat)
    requires pos <= |text| && StringKind(NextToken(text, pos).kind)
    ensures var x := LexemeAt(text, NextToken(text, pos)).text;
      && Quoted(x) && IsBody(Inner(x)) && (NextToken(text, pos).kind == NoescString ==> AllPlain(Inner(x)))
      && x == "\"" + Inner(x) + "\""
  {
    TokenPlace(text, pos);
    BodyOfLexeme(LexemeAt(text, NextToken(text, pos)));
  }

  /** The string at a position, if a string comes next */
  function StringAt(text: string, pos: nat): Option<string>
    requires pos <= |text|
  {
    if StringKind(NextToken(text, pos).kind) then Some(Decode(BodyAt(text, pos))) else None
  }

  lemma {:induction false} BodySlice(text: string, pos: nat)
    requires pos <= |text| && StringKind(NextToken(text, pos).kind)
    ensures var t := NextToken(text, pos);
      t.start + 1 < t.end && BodyAt(text, pos) == text[t.start + 1..t.end - 1] && text[t.end - 1] == '"'
  {
    BodyLemma(text, pos);
    var t := NextToken(text, pos);
    QuotedSlice(text, t.start, t.end);
  }

  lemma QuotedSlice(text: string, start: nat, end: nat)
    requires start <= end <= |text| && Quoted(text[start..end])
    ensures start + 1 < end && Inner(text[start..end]) == text[start + 1..end - 1] && text[end - 1] == '"'
  {
    assert text[start..end][end - start - 1] == text[end - 1];
    SliceOfSlice(text, start, end, 1, end - start - 1);
  }

  /** `s_json_get_string` */
  method GetString(text: string, pos: nat) returns (r: Option<string>)
    requires pos <= |text|
    ensures r == StringAt(text, pos)
  {
    var t := GetToken(text, pos);
    if t.kind != String && t.kind != NoescString {
      return None;
    }
    BodySlice(text, pos);
    if t.kind == NoescString {
      DecodePlain(BodyAt(text, pos));
      return Some(text[t.start + 1..t.end - 1]);
    }
    var str := DecodeString(text, t.start + 1, t.end - 1);
    return Some(str);
  }

  /** As IsBody and Decode, for a part of a text */
  predicate BodyIn(text: string, s: nat, close: nat)
    requires s <= close <= |text|
    decreases close - s
  {
    if s == close then true
    else if PlainChar(text[s]) then BodyIn(text, s + 1, close)
    else if s + 1 < close && text[s] == '\\' && CtlChar(text[s + 1]) then BodyIn(text, s + 2, close)
    else s + 5 < close && text[s] == '\\' && text[s + 1] == 'u'
         && (forall i | s + 2 <= i < s + 6 :: HexDigit(text[i])) && BodyIn(text, s + 6, close)
  }

  function DecodeIn(text: string, s: nat, close: nat): string
    requires s <= close <= |text| && BodyIn(text, s, close)
    decreases close - s
  {
    if s == close then ""
    else if PlainChar(text[s]) then [text[s]] + DecodeIn(text, s + 1, close)
    else if CtlChar(text[s + 1]) then [Unescape(text[s + 1])] + DecodeIn(text, s + 2, close)
    else Utf8(CodePoint(text[s + 2..s + 6])) + DecodeIn(text, s + 6, close)
  }

  lemma {:induction false} CodePointIn(text: string, s: nat, close: nat)
    requires s <= close <= |text| && IsBody(text[s..close]) && s < close && HeadLength(text[s..close]) == 6
    ensures s + 5 < close && text[s] == '\\' && text[s + 1] == 'u' && text[s..close][2..6] == text[s + 2..s + 6]
    ensures forall i | s + 2 <= i < s + 6 :: HexDigit(text[i])
  {
    var x := text[s..close];
    SliceOfSlice(text, s, close, 2, 6);
    forall i | s + 2 <= i < s + 6 ensures HexDigit(text[i]) {
      assert text[i] == x[i - s];
    }
  }

  lemma {:induction false} HeadIn(text: string, s: nat, close: nat, k: nat)
    requires s < close <= |text| && IsBody(text[s..close]) && k == HeadLength(text[s..close])
    requires BodyIn(text, s + k, close)
    ensures BodyIn(text, s, close)
      && DecodeIn(text, s, close) == DecodeHead(text[s..close]) + DecodeIn(text, s + k, close)
  {
    if k == 6 {
      CodePointIn(text, s, close);
    }
  }

  lemma {:induction false} DecodeSlice(text: string, s: nat, close: nat)
    requires s <= close <= |text| && IsBody(text[s..close])
    ensures BodyIn(text, s, close) && DecodeIn(text, s, close) == Decode(text[s..close])
    decreases close - s
  {
    if s < close {
      var x := text[s..close];
      var k := HeadLength(x);
      assert x[k..] == text[s + k..close];
      DecodeSlice(text, s + k, close);
      DecodeUnfold(x, k, text[s + k..close]);
      HeadIn(text, s, close, k);
    }
  }

  /** The loop of `s_json_get_string` over characters, escapes and code points up to the quote */
  method DecodeString(text: string, start: nat, close: nat) returns (str: string)
    requires start <= close < |text| && text[close] == '"' && IsBody(text[start..close])
    ensures str == Decode(text[start..close])
  {
    DecodeSlice(text, start, close);
    str := "";
    var c := start;
    while text[c] != '"'
      invariant start <= c <= close && BodyIn(text, c, close)
      invariant DecodeIn(text, start, close) == str + DecodeIn(text, c, close)
      decreases close - c
    {
      var part, next := DecodePart(text, c, close);
      Assoc(str, part, DecodeIn(text, next, close));
      str, c := str + part, next;
    }
  }

  /** One pass of the loop */
  method DecodePart(text: string, s: nat, close: nat) returns (part: string, c: nat)
    requires s < close < |text| && text[close] == '"' && BodyIn(text, s, close) && text[s] != '"'
    ensures s < c <= close && BodyIn(text, c, close)
    ensures DecodeIn(text, s, close) == part + DecodeIn(text, c, close)
  {
    if text[s] != '\\' {
      part, c := PlainEnd(text, s, close);
    } else if text[s + 1] == 'u' {
      part, c := Utf8(CodePoint(text[s + 2..s + 6])), s + 6;
    } else {
      part, c := [Unescape(text[s + 1])], s + 2;
    }
  }

  /** CHAR+: a run of plain characters is decoded as it is. */
  lemma {:induction false} PlainRun(text: string, s: nat, c: nat, close: nat)
    requires s <= c <= close <= |text| && BodyIn(text, s, close) && forall i | s <= i < c :: PlainChar(text[i])
    ensures BodyIn(text, c, close) && DecodeIn(text, s, close) == text[s..c] + DecodeIn(text, c, close)
    decreases c - s
  {
    if s == c {
      assert text[s..c] == "";
    } else {
      PlainRun(text, s + 1, c, close);
      Assoc([text[s]], text[s + 1..c], DecodeIn(text, c, close));
      assert text[s..c] == [text[s]] + text[s + 1..c];
    }
  }

  method PlainEnd(text: string, s: nat, close: nat) returns (part: string, c: nat)
    requires s < close < |text| && text[close] == '"' && BodyIn(text, s, close) && PlainChar(text[s])
    ensures s < c <= close && part == text[s..c] && BodyIn(text, c, close)
    ensures DecodeIn(text, s, close) == part + DecodeIn(text, c, close)
  {
    c := s + 1;
    while PlainChar(text[c])
      invariant s < c <= close && forall i | s <= i < c :: PlainChar(text[i])
      decreases close - c
    {
      c := c + 1;
    }
    PlainRun(text, s, c, close);
    part := text[s..c];
  }

  /** strncmp(a, b, n) == 0 */
  predicate SameStart(a: string, b: string, n: nat)
  {
    var x, y := CString(a), CString(b);
    (if |x| < n then x else x[..n]) == (if |y| < n then y else y[..n])
  }

  /** `s_json_string_match`: both paths decode and compare as C strings. */
  method StringMatch(text: string, pos: nat, name: string) returns (b: bool)
    requires pos <= |text|
    ensures b <==> StringAt(text, pos).Some? && CString(StringAt(text, pos).value) == CString(name)
  {
    var t := GetToken(text, pos);
    if t.kind == NoescString {
      FastPath(text, pos, t, name);
      var jsonLen := t.end - t.start - 2;
      b := if SameStart(text[t.start + 1..], name, jsonLen) then |CString(name)| == jsonLen else false;
    } else if t.kind == String {
      var str := GetString(text, pos);
      b := CString(str.value) == CString(name);
    } else {
      b := false;
    }
  }

  /** The fast path compares without decoding. */
  lemma {:induction false} FastPath(text: string, pos: nat, t: Lexed, name: string)
    requires pos <= |text| && t == NextToken(text, pos) && t.kind == NoescString
    ensures t.start + 2 <= t.end <= |text| && StringAt(text, pos).Some?
    ensures SameStart(text[t.start + 1..], name, t.end - t.start - 2) && |CString(name)| == t.end - t.start - 2
      <==> CString(StringAt(text, pos).value) == CString(name)
  {
    var body := BodyAt(text, pos);
    BodySlice(text, pos);
    DecodePlain(body);
    assert NulFree(body);
    CStringOfNulFree(body);
    assert text[t.start + 1..][..|body|] == body;
    FastCompare(text[t.start + 1..], body, name);
  }

  /** Comparing as many characters as a NUL-free string has, and the length, compares with it. */
  lemma {:induction false} FastCompare(buffer: string, body: string, name: string)
    requires body <= buffer && NulFree(body)
    ensures SameStart(buffer, name, |body|) && |CString(name)| == |body| <==> body == CString(name)
  {
    CStringPrefix(buffer, body);
    assert CString(buffer)[..|body|] == body;
  }

  // ---- Escaping ----

  /** The characters that are copied as they are */
  predicate RunChar(c: char)
  {
    c != '\n' && c != '\r' && c != '\U{08}' && c != '\t' && c != '"' && c != '\\' && c != '\0'
  }

  /** Where a run of such characters ends */
  function RunStop(v: string, i: nat): (n: nat)
    requires i <= |v|
    ensures i <= n <= |v| && (forall k | i <= k < n :: RunChar(v[k])) && (n < |v| ==> !RunChar(v[n]))
    decreases |v| - i
  {
    if i == |v| || !RunChar(v[i]) then i else RunStop(v, i + 1)
  }

  lemma {:induction false} RunStopUnique(v: string, i: nat, n: nat)
    requires i <= n <= |v| && (forall k | i <= k < n :: RunChar(v[k])) && (n < |v| ==> !RunChar(v[n]))
    ensures RunStop(v, i) == n
  {
    var r := RunStop(v, i);
    assert !(r < n) && !(n < r);
  }

  /** The escape of one special character */
  function EscapeOf(c: char): string
  {
    match c
    case '\n' => "\\n"
    case '\r' => "\\r"
    case '\U{08}' => "\\b"
    case '\t' => "\\t"
    case '"' => "\\\""
    case _ => "\\\\"
  }

  /** A run of ordinary characters is copied, except that a form feed alone in its run is escaped. */
  function EscapeRun(run: string): string
  {
    if run == "\U{0c}" then "\\f" else run
  }

  function EscapeFrom(v: string, i: nat): string
    requires NulFree(v) && i <= |v|
    decreases |v| - i
  {
    if i == |v| then ""
    else if RunChar(v[i]) then EscapeRun(v[i..RunStop(v, i)]) + EscapeFrom(v, RunStop(v, i))
    else EscapeOf(v[i]) + EscapeFrom(v, i + 1)
  }

  function Escape(v: string): string
    requires NulFree(v)
  {
    EscapeFrom(v, 0)
  }

  function Literal(v: string): string
    requires NulFree(v)
  {
    "\"" + Escape(v) + "\""
  }

  lemma DecodeRun(run: string)
    requires forall i | 0 <= i < |run| :: RunChar(run[i])
    ensures IsBody(EscapeRun(run)) && Decode(EscapeRun(run)) == run
  {
    if run == "\U{0c}" {
      assert "\\f"[2..] == "";
      assert Decode("\\f"[2..]) == "";
    } else {
      DecodePlain(run);
    }
  }

  lemma DecodeEscapeOf(c: char)
    requires !RunChar(c) && c != '\0'
    ensures IsBody(EscapeOf(c)) && Decode(EscapeOf(c)) == [c]
  {
    var e := EscapeOf(c);
    assert e[2..] == "";
    assert Decode(e[2..]) == "";
    assert CtlChar(e[1]) && Unescape(e[1]) == c;
  }

  /** What escaping makes of the run or the special character at a position, and where it goes on */
  function EscapeUnit(v: string, i: nat): (r: (string, nat))
    requires NulFree(v) && i < |v|
    ensures i < r.1 <= |v|
  {
    if RunChar(v[i]) then (EscapeRun(v[i..RunStop(v, i)]), RunStop(v, i)) else (EscapeOf(v[i]), i + 1)
  }

  lemma DecodeUnit(v: string, i: nat)
    requires NulFree(v) && i < |v|
    ensures var (part, n) := EscapeUnit(v, i); IsBody(part) && Decode(part) == v[i..n]
  {
    if RunChar(v[i]) {
      DecodeRun(v[i..RunStop(v, i)]);
    } else {
      DecodeEscapeOf(v[i]);
    }
  }

  lemma {:induction false} EscapeUnfold(v: string, i: nat)
    requires NulFree(v) && i < |v|
    ensures var (part, n) := EscapeUnit(v, i); EscapeFrom(v, i) == part + EscapeFrom(v, n)
  {
  }

  lemma {:induction false} DecodeSum(v: string, i: nat, n: nat, part: string, rest: string)
    requires i <= n <= |v| && IsBody(part) && IsBody(rest) && Decode(part) == v[i..n] && Decode(rest) == v[n..]
    ensures IsBody(part + rest) && Decode(part + rest) == v[i..]
  {
    SliceSum(v, i, n);
    DecodeAppend(part, rest);
  }

  lemma SliceSum(v: string, i: nat, n: nat)
    requires i <= n <= |v|
    ensures v[i..n] + v[n..] == v[i..]
  {
  }

  lemma {:induction false} DecodeOfEscapeFrom(v: string, i: nat)
    requires NulFree(v) && i <= |v|
    ensures IsBody(EscapeFrom(v, i)) && Decode(EscapeFrom(v, i)) == v[i..]
    decreases |v| - i
  {
    if i < |v| {
      var (part, n) := EscapeUnit(v, i);
      DecodeUnit(v, i);
      DecodeOfEscapeFrom(v, n);
      EscapeUnfold(v, i);
      DecodeSum(v, i, n, part, EscapeFrom(v, n));
    }
  }

  /** Decoding undoes escaping, for every C string. */
  lemma DecodeOfEscape(v: string)
    requires NulFree(v)
    ensures IsBody(Escape(v)) && Decode(Escape(v)) == v
  {
    DecodeOfEscapeFrom(v, 0);
    assert v[0..] == v;
  }

  /** A form feed is escaped when it is a run of its own, and copied when the run is longer. */
  lemma FormFeedEscapes()
    ensures Escape("\U{0c}") == "\\f" && Escape("a\U{0c}") == "a\U{0c}"
  {
    var alone, longer := "\U{0c}", "a\U{0c}";
    assert alone[0..1] == alone && longer[0..2] == longer;
    RunStopUnique(alone, 0, 1);
    RunStopUnique(longer, 0, 2);
    assert EscapeFrom(alone, 1) == "" && EscapeFrom(longer, 2) == "";
  }

  /** `escape_string` */
  method EscapeString(v: string) returns (str: string)
    ensures str == Literal(CString(v))
  {
    str := EscapeLoop(v, CString(v));
  }

  method EscapeLoop(v: string, ghost cs: string) returns (str: string)
    requires NulFree(cs) && cs <= v && At(v, |cs|) == '\0'
    ensures str == Literal(cs)
  {
    var c := 0;
    str := "\"";
    while At(v, c) != '\0'
      invariant 0 <= c <= |cs|
      invariant Literal(cs) == str + EscapeFrom(cs, c) + "\""
      decreases |cs| - c
    {
      var part, next := EscapePart(v, c, cs);
      assert str + (part + EscapeFrom(cs, next)) + "\"" == (str + part) + EscapeFrom(cs, next) + "\"";
      str, c := str + part, next;
    }
    str := str + "\"";
  }

  lemma {:induction false} RunUnit(cs: string, s: nat, c: nat)
    requires NulFree(cs) && s < c <= |cs| && (forall i | s <= i < c :: RunChar(cs[i])) && !RunChar(At(cs, c))
    ensures EscapeFrom(cs, s) == EscapeRun(cs[s..c]) + EscapeFrom(cs, c)
  {
    RunStopUnique(cs, s, c);
  }

  lemma {:induction false} RunPart(cs: string, s: nat, c: nat)
    requires NulFree(cs) && s < c <= |cs| && (forall i | s <= i < c :: RunChar(cs[i])) && !RunChar(At(cs, c))
    requires cs[s] == '\U{0c}' ==> c > s + 1
    ensures EscapeFrom(cs, s) == cs[s..c] + EscapeFrom(cs, c)
  {
    RunUnit(cs, s, c);
    assert cs[s..c][0] == cs[s];
  }

  lemma {:induction false} LoneFormFeed(cs: string, s: nat)
    requires NulFree(cs) && s < |cs| && cs[s] == '\U{0c}' && !RunChar(At(cs, s + 1))
    ensures EscapeFrom(cs, s) == "\\f" + EscapeFrom(cs, s + 1)
  {
    RunUnit(cs, s, s + 1);
    assert cs[s..s + 1] == [cs[s]];
  }

  /** A buffer reads as the C string in it, up to its terminator. */
  lemma AtPrefix(v: string, cs: string, s: nat, c: nat)
    requires cs <= v && At(v, |cs|) == '\0' && s <= c <= |cs|
    ensures At(v, c) == At(cs, c) && v[s..c] == cs[s..c]
  {
  }

  /** One pass of the loop: a special character, or a run of ordinary ones */
  method EscapePart(v: string, s: nat, ghost cs: string) returns (part: string, c: nat)
    requires NulFree(cs) && cs <= v && At(v, |cs|) == '\0' && s < |cs|
    ensures s < c <= |cs| && EscapeFrom(cs, s) == part + EscapeFrom(cs, c)
  {
    AtPrefix(v, cs, s, s);
    AtPrefix(v, cs, s, s + 1);
    if !RunChar(v[s]) {
      part, c := EscapeOf(v[s]), s + 1;
    } else if v[s] == '\U{0c}' && !RunChar(At(v, s + 1)) {
      part, c := "\\f", s + 1;
      LoneFormFeed(cs, s);
    } else {
      c := EscapeRunEnd(v, s, cs);
      AtPrefix(v, cs, s, c);
      part := v[s..c];
      RunPart(cs, s, c);
    }
  }

  /** The end of a run of ordinary characters */
  method EscapeRunEnd(v: string, s: nat, ghost cs: string) returns (c: nat)
    requires NulFree(cs) && cs <= v && At(v, |cs|) == '\0' && s < |cs| && RunChar(v[s])
    ensures s < c <= |cs| && (forall i | s <= i < c :: RunChar(cs[i])) && !RunChar(At(cs, c))
    ensures RunChar(At(v, s + 1)) ==> c > s + 1
  {
    AtPrefix(v, cs, s, s);
    c := s + 1;
    AtPrefix(v, cs, s, c);
    while RunChar(At(v, c))
      invariant s < c <= |cs| && At(v, c) == At(cs, c)
      invariant forall i | s <= i < c :: RunChar(cs[i])
      invariant c == s + 1 || RunChar(At(v, s + 1))
      decreases |cs| - c
    {
      c := c + 1;
      AtPrefix(v, cs, s, c);
    }
  }

  /** The token that an escaped string is */
  function StringLexeme(v: string): Lexeme
    requires NulFree(v)
  {
    Lexeme(if AllPlain(Escape(v)) then NoescString else String, Literal(v))
  }

  lemma {:induction false} QuotedGenuine(x: string)
    requires Quoted(x) && IsBody(Inner(x))
    ensures Genuine(Lexeme(if AllPlain(Inner(x)) then NoescString else String, x))
  {
    RunQuoted(x);
    if Run(Start, x) == Done(NoescString) {
      RunSound(x);
    }
  }

  lemma StringLexemeGenuine(v: string)
    requires NulFree(v)
    ensures Genuine(StringLexeme(v))
  {
    DecodeOfEscape(v);
    assert Inner(Literal(v)) == Escape(v);
    QuotedGenuine(Literal(v));
  }

  /** Reading an escaped string gives it back. */
  lemma {:induction false} StringReadsBack(text: string, pos: nat, v: string)
    requires pos <= |text| && NulFree(v) && After(text, pos, [StringLexeme(v)]).Some?
    ensures StringAt(text, pos) == Some(v)
  {
    AfterOne(text, pos, StringLexeme(v));
    DecodeOfEscape(v);
    assert BodyAt(text, pos) == Escape(v) by {
      var q := "\"" + BodyAt(text, pos) + "\"";
      assert q == Literal(v);
      assert q[1..|q| - 1] == BodyAt(text, pos);
      assert Literal(v)[1..|Literal(v)| - 1] == Escape(v);
    }
  }

  // ---- What the bytes of a decoded string are ----

  /** A hexadecimal digit and what it is worth */
  predicate IsHexDigit(c: char, v: int)
  {
    || ('0' <= c <= '9' && v == c as int - '0' as int)
    || ('a' <= c <= 'f' && v == 10 + c as int - 'a' as int)
    || ('A' <= c <= 'F' && v == 10 + c as int - 'A' as int)
  }

  /** The number four hexadecimal digits stand for */
  lemma CodePointWeighs(u: string, a: nat, b: nat, c: nat, d: nat)
    requires |u| == 4 && IsHexDigit(u[0], a) && IsHexDigit(u[1], b) && IsHexDigit(u[2], c) && IsHexDigit(u[3], d)
    ensures (forall i | 0 <= i < 4 :: HexDigit(u[i])) && CodePoint(u) == 4096 * a + 256 * b + 16 * c + d
  {
    assert forall i | 0 <= i < 4 :: HexDigit(u[i]) by {
      assert HexDigit(u[0]) && HexDigit(u[1]) && HexDigit(u[2]) && HexDigit(u[3]);
    }
  }

  /** The bytes of a code point are the shortest UTF-8 sequence for it (section 3 of RFC 3629): a lead byte that tells
      the length, continuation bytes, and payload bits that add up to the number. */
  lemma Utf8Weighs(n: nat)
    requires n < 0x10000
    ensures var r := Utf8(n);
      if n < 0x80 then |r| == 1 && r[0] as int == n
      else if n < 0x800 then
        && |r| == 2 && 0xC2 <= r[0] as int <= 0xDF && 0x80 <= r[1] as int <= 0xBF
        && r[0] as int % 32 * 64 + r[1] as int % 64 == n
      else
        && |r| == 3 && 0xE0 <= r[0] as int <= 0xEF && 0x80 <= r[1] as int <= 0xBF && 0x80 <= r[2] as int <= 0xBF
        && r[0] as int % 16 * 4096 + r[1] as int % 64 * 64 + r[2] as int % 64 == n
  {
    if n < 0x800 {
      TwoParts(n);
    } else {
      ThreeParts(n);
    }
  }

  lemma TwoParts(n: nat)
    requires n < 0x800
    ensures n / 64 < 32 && n % 64 < 64 && n / 64 * 64 + n % 64 == n
    ensures (0xC0 + n / 64) % 32 == n / 64 && (0x80 + n % 64) % 64 == n % 64
  {
  }

  lemma ThreeParts(n: nat)
    requires n < 0x10000
    ensures n / 4096 < 16 && n / 64 % 64 < 64 && n % 64 < 64
    ensures n / 4096 * 4096 + n / 64 % 64 * 64 + n % 64 == n
    ensures (0xE0 + n / 4096) % 16 == n / 4096
    ensures (0x80 + n / 64 % 64) % 64 == n / 64 % 64 && (0x80 + n % 64) % 64 == n % 64
  {
    var h := n / 64;
    assert h / 64 == n / 4096;
    assert n == h * 64 + n % 64 && h == h / 64 * 64 + h % 64;
  }

  /** What an escape of one letter stands for */
  lemma UnescapeMeaning()
    ensures Unescape('b') as int == 8 && Unescape('t') as int == 9 && Unescape('n') as int == 10
    ensures Unescape('f') as int == 12 && Unescape('r') as int == 13
    ensures Unescape('"') == '"' && Unescape('\\') == '\\' && Unescape('/') == '/'
  {
  }

  /** The elements of a string body, one by one; DecodeAppend puts them together. */
  lemma DecodeOne(c: char, u: string)
    requires |u| == 4 && forall i | 0 <= i < 4 :: HexDigit(u[i])
    ensures PlainChar(c) ==> IsBody([c]) && Decode([c]) == [c]
    ensures CtlChar(c) ==> IsBody(['\\', c]) && Decode(['\\', c]) == [Unescape(c)]
    ensures IsBody("\\u" + u) && Decode("\\u" + u) == Utf8(CodePoint(u))
  {
    var x, y, z := [c], ['\\', c], "\\u" + u;
    assert x[1..] == "" && y[2..] == "" && z[6..] == "" && z[2..6] == u;
    assert Decode("") == "" && IsBody("");
  }

  /** Any quoted body is read as what it stands for. */
  lemma {:induction false} BodyReads(x: string)
    requires IsBody(x)
    ensures StringAt("\"" + x + "\"", 0) == Some(Decode(x))
  {
    var text := "\"" + x + "\"";
    var lexeme := Lexeme(if AllPlain(x) then NoescString else String, text);
    assert Inner(text) == x;
    QuotedGenuine(text);
    TokenFound(text, 0, "", 0, lexeme, |text|);
    assert text[0..|text|] == text;
    var body := BodyAt(text, 0);
    assert "\"" + body + "\"" == text;
    assert Inner("\"" + body + "\"") == body;
  }

  /** The euro sign as other programs write it is read as its three bytes. */
  lemma EuroSign()
    ensures StringAt("\"\\u20ac\"", 0) == Some("\U{E2}\U{82}\U{AC}")
  {
    hide IsBody, Decode, CodePoint, Utf8, StringAt;
    var u, x := "20ac", "\\u20ac";
    assert x == "\\u" + u;
    CodePointWeighs(u, 2, 0, 10, 12);
    DecodeOne('a', u);
    BodyReads(x);
    EuroBytes();
    assert "\"\\u20ac\"" == "\"" + x + "\"";
  }

  lemma EuroBytes()
    ensures Utf8(0x20AC) == "\U{E2}\U{82}\U{AC}"
  {
    assert 0x20AC / 4096 == 2 && 0x20AC / 64 % 64 == 2 && 0x20AC % 64 == 44;
  }

  /** How a string of one character is written */
  lemma EscapeOne(c: char)
    requires c != '\0'
    ensures Literal([c]) ==
      if c as int == 8 then "\"\\b\""
      else if c as int == 9 then "\"\\t\""
      else if c as int == 10 then "\"\\n\""
      else if c as int == 12 then "\"\\f\""
      else if c as int == 13 then "\"\\r\""
      else if c == '"' then "\"\\\"\""
      else if c == '\\' then "\"\\\\\""
      else ['"', c, '"']
  {
    var v := [c];
    assert v[0..1] == v && EscapeFrom(v, 1) == "";
    if RunChar(c) {
      RunStopUnique(v, 0, 1);
    }
  }
}
