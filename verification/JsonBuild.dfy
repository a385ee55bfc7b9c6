/** Filling in templates (`s_json_buildv` of sjson.c): runs of tokens and white space are copied, bare identifiers are
    quoted, and a hole is replaced by the text of an argument. */
module JsonBuild {
  import opened Wrappers
  import opened JsonLexer
  import opened JsonGrammar
  import opened JsonStrings
  import opened JsonNumbers
  import opened JsonRuns

  // ---- Arguments ----

  /** An argument, as it is read for any kind of hole; a double is given by what it is printed as. */
  datatype Arg = Arg(isNull: bool, str: Option<string>, int64: int, double: string, flag: bool)

  predicate HoleLetter(c: char)
  {
    c == 's' || c == 'S' || c == 'j' || c == 'J' || c == 'i' || c == 'd' || c == 'b'
  }

  /** The leading value of a text that is put in as it is, with the white space before it */
  function JsonText(s: Option<string>): string
  {
    if s.None? || ValueEnd(CString(s.value), 0).None? then "null"
    else CString(s.value)[..ValueEnd(CString(s.value), 0).value]
  }

  function StringText(s: Option<string>): string
  {
    if s.None? then "null" else Literal(CString(s.value))
  }

  function Formatted(letter: char, a: Arg): string
  {
    if letter == 's' || letter == 'S' then StringText(a.str)
    else if letter == 'j' || letter == 'J' then JsonText(a.str)
    else if letter == 'i' then IntText(a.int64)
    else if letter == 'd' then a.double
    else if a.flag then "true" else "false"
  }

  /** What a hole is replaced by; one with a question mark takes a null flag first. */
  function HoleText(letter: char, nullable: bool, a: Arg): string
  {
    if nullable && a.isNull then "null" else Formatted(letter, a)
  }

  // ---- What comes next in a template ----

  /** What takes the place of each hole */
  lemma HoleForms(nullable: bool, a: Arg)
    requires !(nullable && a.isNull)
    ensures HoleText('s', nullable, a) == HoleText('S', nullable, a)
      == if a.str.None? then "null" else Literal(CString(a.str.value))
    ensures HoleText('i', nullable, a) == IntText(a.int64) && HoleText('d', nullable, a) == a.double
    ensures HoleText('b', nullable, a) == if a.flag then "true" else "false"
    ensures HoleText('j', nullable, a) == HoleText('J', nullable, a)
      == if a.str.None? || ValueEnd(CString(a.str.value), 0).None? then "null"
         else CString(a.str.value)[..ValueEnd(CString(a.str.value), 0).value]
    ensures forall letter: char :: HoleText(letter, true, a.(isNull := true)) == "null"
  {
  }

  predicate IdentStart(c: char)
  {
    'A' <= c <= 'Z' || 'a' <= c <= 'z' || c == '_' || c == '-'
  }

  predicate IdentChar(c: char)
  {
    IdentStart(c) || Digit(c)
  }

  /** Where the characters of identifiers end */
  function IdentStop(text: string, i: nat): (n: nat)
    requires i <= |text|
    ensures i <= n <= |text| && (forall k | i <= k < n :: IdentChar(text[k])) && !IdentChar(At(text, n))
    decreases |text| - i
  {
    if i == |text| || !IdentChar(text[i]) then i else IdentStop(text, i + 1)
  }

  function IdentEnd(text: string, s: nat): (n: nat)
    requires s <= |text|
    ensures s <= n <= |text|
  {
    if IdentStart(At(text, s)) then IdentStop(text, s) else s
  }

  datatype Chunk = Stop | Bad | Copy(end: nat) | Ident(end: nat) | Hole(letter: char, nullable: bool, end: nat)

  /** By the rules: the longest match wins, and a run wins over an identifier of the same length. */
  function ChunkAt(text: string, s: nat): (c: Chunk)
    requires s <= |text|
    ensures !c.Stop? && !c.Bad? ==> s < c.end <= |text|
  {
    if At(text, s) == '\0' then Stop
    else if At(text, s) == '%' then HoleAt(text, s)
    else
      RunWithin(text, s, true);
      var run, ident := RunEnd(Z(text), s, true), IdentEnd(text, s);
      if run.Some? && run.value >= ident then Copy(run.value) else if ident > s then Ident(ident) else Bad
  }

  function HoleAt(text: string, s: nat): (c: Chunk)
    requires s <= |text|
    ensures c.Hole? ==> s < c.end <= |text|
    ensures c.Bad? || c.Hole?
  {
    var nullable := At(text, s + 1) == '?';
    var at := if nullable then s + 2 else s + 1;
    if HoleLetter(At(text, at)) then Hole(At(text, at), nullable, at + 1) else Bad
  }

  /** The text built from a position on, with the arguments from the k-th on */
  function BuildFrom(text: string, s: nat, args: nat -> Arg, k: nat): Option<string>
    requires s <= |text|
    decreases |text| - s
  {
    match ChunkAt(text, s)
    case Stop => Some("")
    case Bad => None
    case Copy(end) => Behind(text[s..end], BuildFrom(text, end, args, k))
    case Ident(end) => Behind("\"" + text[s..end] + "\"", BuildFrom(text, end, args, k))
    case Hole(letter, nullable, end) => Behind(HoleText(letter, nullable, args(k)), BuildFrom(text, end, args, k + 1))
  }

  ghost function Built(format: string, args: nat -> Arg): Option<string>
  {
    var r := BuildFrom(format, 0, args, 0);
    if r.Some? && IsJson(r.value) then r else None
  }

  // ---- The code ----

  method ScanIdent(text: string, s: nat) returns (n: nat)
    requires s <= |text|
    ensures n == IdentEnd(text, s)
  {
    n := s;
    if IdentStart(At(text, s)) {
      while IdentChar(At(text, n))
        invariant s <= n <= |text| && IdentStop(text, s) == IdentStop(text, n)
        decreases |text| - n
      {
        n := n + 1;
      }
    }
  }

  /** One match of the rules */
  method ScanChunk(text: string, s: nat) returns (c: Chunk)
    requires s <= |text|
    ensures c == ChunkAt(text, s)
  {
    if At(text, s) == '\0' {
      return Stop;
    }
    if At(text, s) == '%' {
      return HoleAt(text, s);
    }
    var run := ScanRun(text, s, true);
    var ident := ScanIdent(text, s);
    if run.Some? && run.value >= ident {
      return Copy(run.value);
    }
    return if ident > s then Ident(ident) else Bad;
  }

  /** The text of a hole, with `s_json_is_valid_inner` for a text that is put in as it is */
  method Format(letter: char, nullable: bool, a: Arg) returns (text: string)
    ensures text == HoleText(letter, nullable, a)
  {
    if nullable && a.isNull {
      return "null";
    }
    if letter == 's' || letter == 'S' {
      if a.str.None? {
        return "null";
      }
      text := EscapeString(a.str.value);
    } else if letter == 'j' || letter == 'J' {
      if a.str.None? {
        return "null";
      }
      var ok, end := IsValidInner(CString(a.str.value), 0);
      text := if ok then CString(a.str.value)[..end] else "null";
    } else {
      text := Formatted(letter, a);
    }
  }

  /** `s_json_buildv` */
  method Build(format: string, args: nat -> Arg) returns (r: Option<string>)
    ensures r == Built(format, args)
  {
    var str := BuildLoop(format, args);
    if str.None? {
      return None;
    }
    var valid := IsValid(str.value);
    r := if valid then str else None;
  }

  method BuildLoop(format: string, args: nat -> Arg) returns (r: Option<string>)
    ensures r == BuildFrom(format, 0, args, 0)
  {
    var str: string, c: nat, k: nat := "", 0, 0;
    NothingBefore(BuildFrom(format, 0, args, 0));
    while true
      invariant c <= |format| && BuildFrom(format, 0, args, 0) == Behind(str, BuildFrom(format, c, args, k))
      decreases |format| - c
    {
      var chunk := ScanChunk(format, c);
      if chunk.Stop? {
        assert str + "" == str;
        return Some(str);
      }
      if chunk.Bad? {
        return None;
      }
      var part := "";
      match chunk {
        case Copy(end) => part := format[c..end];
        case Ident(end) => part := "\"" + format[c..end] + "\"";
        case Hole(letter, nullable, _) => part := Format(letter, nullable, args(k));
      }
      BehindTwice(str, part, BuildFrom(format, chunk.end, args, if chunk.Hole? then k + 1 else k));
      str, c, k := str + part, chunk.end, if chunk.Hole? then k + 1 else k;
    }
  }

  lemma BehindTwice(a: string, b: string, r: Option<string>)
    ensures Behind(a, Behind(b, r)) == Behind(a + b, r)
  {
    if r.Some? {
      Assoc(a, b, r.value);
    }
  }

  /** The characters of an identifier, by their codes */
  lemma IdentClasses(c: char)
    ensures IdentStart(c) <==> 65 <= c as int <= 90 || 97 <= c as int <= 122 || c as int in {45, 95}
    ensures IdentChar(c) <==> IdentStart(c) || 48 <= c as int <= 57
    ensures HoleLetter(c) <==> c in "sSjJidb"
  {
  }

  /** A hole is a percent sign, perhaps a question mark, and a letter. */
  lemma HolePlaces(text: string, s: nat)
    requires s < |text| && text[s] == '%'
    ensures var at := if At(text, s + 1) == '?' then s + 2 else s + 1;
      ChunkAt(text, s) ==
        if At(text, at) in "sSjJidb" then Hole(At(text, at), At(text, s + 1) == '?', at + 1) else Bad
  {
    IdentClasses(At(text, if At(text, s + 1) == '?' then s + 2 else s + 1));
  }
}
