/** The JSON tokenizer (sjson.c, sjson.gen.c): the token rules, an automaton that refines them, and the
    generated code that refines the automaton. Texts are C strings: reading at the end gives NUL. */
module JsonLexer {
  import opened Wrappers

  datatype Kind = End | ObjStart | ObjEnd | ArrayStart | ArrayEnd | Colon | Comma
                | String | NoescString | Number | False | True | Null | Invalid

  // ---- The rules ----

  datatype Rule = Space | Tok(kind: Kind)

  /** The place of a rule in the list of rules; the first one wins. */
  function Order(r: Rule): nat
  {
    match r
    case Space => 0
    case Tok(ObjStart) => 1
    case Tok(ObjEnd) => 2
    case Tok(ArrayStart) => 3
    case Tok(ArrayEnd) => 4
    case Tok(NoescString) => 5
    case Tok(String) => 6
    case Tok(Colon) => 7
    case Tok(Comma) => 8
    case Tok(Number) => 9
    case Tok(True) => 10
    case Tok(False) => 11
    case Tok(Null) => 12
    case Tok(End) => 13
    case Tok(Invalid) => 14
  }

  predicate WsChar(c: char)
  {
    c == ' ' || c == '\t' || c == '\n' || c == '\r'
  }

  predicate Digit(c: char)
  {
    '0' <= c <= '9'
  }

  predicate HexDigit(c: char)
  {
    Digit(c) || 'a' <= c <= 'f' || 'A' <= c <= 'F'
  }

  predicate ExpChar(c: char)
  {
    c == 'e' || c == 'E'
  }

  predicate Sign(c: char)
  {
    c == '+' || c == '-'
  }

  predicate PlainChar(c: char)
  {
    c != '\\' && c != '"' && c != '\0'
  }

  predicate CtlChar(c: char)
  {
    c == '"' || c == '\\' || c == '/' || c == 'b' || c == 'f' || c == 'n' || c == 'r' || c == 't'
  }

  /** The characters of each class, by their codes */
  lemma CharClasses(c: char)
    ensures WsChar(c) <==> c as int in {9, 10, 13, 32}
    ensures Digit(c) <==> 48 <= c as int <= 57
    ensures HexDigit(c) <==> 48 <= c as int <= 57 || 65 <= c as int <= 70 || 97 <= c as int <= 102
    ensures ExpChar(c) <==> c as int in {69, 101}
    ensures Sign(c) <==> c as int in {43, 45}
    ensures PlainChar(c) <==> c as int !in {0, 34, 92}
    ensures CtlChar(c) <==> c as int in {34, 47, 92, 98, 102, 110, 114, 116}
  {
  }

  predicate AllWs(x: string)
  {
    forall i | 0 <= i < |x| :: WsChar(x[i])
  }

  predicate AllDigits(x: string)
  {
    forall i | 0 <= i < |x| :: Digit(x[i])
  }

  predicate AllPlain(x: string)
  {
    forall i | 0 <= i < |x| :: PlainChar(x[i])
  }

  predicate IsInt(x: string)
  {
    x == "0" || (x != "" && x[0] != '0' && AllDigits(x))
  }

  /** MINUS? INT */
  predicate IsSigned(x: string)
  {
    IsInt(if x != "" && x[0] == '-' then x[1..] else x)
  }

  predicate IsFrac(x: string)
  {
    |x| > 1 && x[0] == '.' && AllDigits(x[1..])
  }

  predicate IsExp(x: string)
  {
    |x| > 1 && ExpChar(x[0]) &&
    var digits := if Sign(x[1]) then x[2..] else x[1..];
    digits != "" && AllDigits(digits)
  }

  predicate OptFrac(x: string)
  {
    x == "" || IsFrac(x)
  }

  predicate OptExp(x: string)
  {
    x == "" || IsExp(x)
  }

  ghost predicate IsMantissa(x: string)
  {
    exists a, b :: IsSigned(a) && OptFrac(b) && x == a + b
  }

  ghost predicate IsNumber(x: string)
  {
    exists a, b :: IsMantissa(a) && OptExp(b) && x == a + b
  }

  /** (CHAR | CTL | UNICODE)* */
  predicate IsBody(x: string)
  {
    if x == "" then true
    else if PlainChar(x[0]) then IsBody(x[1..])
    else if |x| > 1 && x[0] == '\\' && CtlChar(x[1]) then IsBody(x[2..])
    else |x| > 5 && x[0] == '\\' && x[1] == 'u' && (forall i | 2 <= i < 6 :: HexDigit(x[i])) && IsBody(x[6..])
  }

  predicate Quoted(x: string)
  {
    |x| > 1 && x[0] == '"' && x[|x| - 1] == '"'
  }

  function Inner(x: string): string
    requires |x| > 1
  {
    x[1..|x| - 1]
  }

  ghost predicate Matches(r: Rule, x: string)
  {
    match r
    case Space => x != "" && AllWs(x)
    case Tok(ObjStart) => x == "{"
    case Tok(ObjEnd) => x == "}"
    case Tok(ArrayStart) => x == "["
    case Tok(ArrayEnd) => x == "]"
    case Tok(NoescString) => Quoted(x) && AllPlain(Inner(x))
    case Tok(String) => Quoted(x) && IsBody(Inner(x))
    case Tok(Colon) => x == ":"
    case Tok(Comma) => x == ","
    case Tok(Number) => IsNumber(x)
    case Tok(True) => x == "true"
    case Tok(False) => x == "false"
    case Tok(Null) => x == "null"
    case Tok(End) => x == "\0"
    case Tok(Invalid) => |x| == 1
  }

  // ---- An automaton for the rules ----

  datatype State = Start | Dead | Blank | Done(kind: Kind) | Other
                 | Quote | Chars | Slash | Hex(n: nat) | Escaped
                 | Minus | Zero | Digits | Dot | Fraction | Exp | ExpSign | ExpDigits
                 | Word(word: Kind, n: nat)

  function Spelling(k: Kind): string
  {
    match k
    case True => "true"
    case False => "false"
    case Null => "null"
    case _ => ""
  }

  function Punctuation(c: char): Kind
  {
    match c
    case '{' => ObjStart
    case '}' => ObjEnd
    case '[' => ArrayStart
    case ']' => ArrayEnd
    case ':' => Colon
    case ',' => Comma
    case '\0' => End
    case _ => Invalid
  }

  function FirstStep(c: char): State
  {
    if WsChar(c) then Blank
    else if c == '"' then Quote
    else if c == '-' then Minus
    else if c == '0' then Zero
    else if Digit(c) then Digits
    else if c == 't' then Word(True, 1)
    else if c == 'f' then Word(False, 1)
    else if c == 'n' then Word(Null, 1)
    else if Punctuation(c) != Invalid then Done(Punctuation(c))
    else Other
  }

  function StringStep(q: State, c: char): State
  {
    if c == '\0' then Dead
    else if c == '"' then Done(if q == Escaped then String else NoescString)
    else if c == '\\' then Slash
    else if q == Escaped then Escaped
    else Chars
  }

  function IntStep(q: State, c: char): State
  {
    if c == '.' then Dot
    else if ExpChar(c) then Exp
    else if q == Digits && Digit(c) then Digits
    else Dead
  }

  function Step(q: State, c: char): State
  {
    match q
    case Start => FirstStep(c)
    case Blank => if WsChar(c) then Blank else Dead
    case Quote => StringStep(q, c)
    case Chars => StringStep(q, c)
    case Escaped => StringStep(q, c)
    case Slash => if CtlChar(c) then Escaped else if c == 'u' then Hex(0) else Dead
    case Hex(n) => if !HexDigit(c) then Dead else if n >= 3 then Escaped else Hex(n + 1)
    case Minus => if c == '0' then Zero else if Digit(c) then Digits else Dead
    case Zero => IntStep(q, c)
    case Digits => IntStep(q, c)
    case Dot => if Digit(c) then Fraction else Dead
    case Fraction => if Digit(c) then Fraction else if ExpChar(c) then Exp else Dead
    case Exp => if Sign(c) then ExpSign else if Digit(c) then ExpDigits else Dead
    case ExpSign => if Digit(c) then ExpDigits else Dead
    case ExpDigits => if Digit(c) then ExpDigits else Dead
    case Word(k, n) =>
      if n >= |Spelling(k)| || c != Spelling(k)[n] then Dead
      else if n + 1 == |Spelling(k)| then Done(k)
      else Word(k, n + 1)
    case Done(k) => Dead
    case Other => Dead
    case Dead => Dead
  }

  function Accepts(q: State): Option<Rule>
  {
    match q
    case Blank => Some(Space)
    case Done(k) => Some(Tok(k))
    case Zero => Some(Tok(Number))
    case Digits => Some(Tok(Number))
    case Fraction => Some(Tok(Number))
    case ExpDigits => Some(Tok(Number))
    case Other => Some(Tok(Invalid))
    case Quote => Some(Tok(Invalid))
    case Minus => Some(Tok(Invalid))
    case Word(k, n) => if n == 1 then Some(Tok(Invalid)) else None
    case _ => None
  }

  function Run(q: State, x: string): State
    decreases x
  {
    if x == "" then q else Run(Step(q, x[0]), x[1..])
  }

  lemma {:induction false} RunSnoc(q: State, x: string, c: char)
    ensures Run(q, x + [c]) == Step(Run(q, x), c)
    decreases x
  {
    if x == "" {
      assert x + [c] == [c] && [c][1..] == "";
      assert Run(Step(q, c), "") == Step(q, c);
    } else {
      RunSnoc(Step(q, x[0]), x[1..], c);
      assert (x + [c])[1..] == x[1..] + [c];
    }
  }

  lemma {:induction false} RunAppend(q: State, x: string, y: string)
    ensures Run(q, x + y) == Run(Run(q, x), y)
    decreases x
  {
    if x == "" {
      assert x + y == y;
    } else {
      RunAppend(Step(q, x[0]), x[1..], y);
      assert (x + y)[1..] == x[1..] + y;
    }
  }

  lemma {:induction false} RunDead(x: string)
    ensures Run(Dead, x) == Dead
  {
    if x != "" {
      RunDead(x[1..]);
    }
  }

  // ---- The automaton accepts only what the rules allow ----

  /** What has been read when the automaton is in a state */
  ghost predicate ReadIn(q: State, x: string)
  {
    match q
    case Start => x == ""
    case Dead => true
    case Blank => x != "" && AllWs(x)
    case Done(k) => k != Invalid && k != Number && Matches(Tok(k), x)
    case Other => |x| == 1
    case Quote => x == "\""
    case Chars => |x| > 1 && x[0] == '"' && AllPlain(x[1..])
    case Escaped => x != "" && x[0] == '"' && IsBody(x[1..])
    case Slash => |x| > 1 && x[0] == '"' && x[|x| - 1] == '\\' && IsBody(Inner(x))
    case Hex(n) =>
      var k := |x| - n;
      n < 4 && k > 2 && x[0] == '"' && x[k - 2] == '\\' && x[k - 1] == 'u' && IsBody(x[1..k - 2])
      && forall i | k <= i < |x| :: HexDigit(x[i])
    case Minus => x == "-"
    case Zero => x == "0" || x == "-0"
    case Digits => x != "" && Digit(x[|x| - 1]) && IsSigned(x) && x != "0" && x != "-0"
    case Dot => x != "" && x[|x| - 1] == '.' && IsSigned(x[..|x| - 1])
    case Fraction => exists a, b :: IsSigned(a) && IsFrac(b) && x == a + b
    case Exp => x != "" && ExpChar(x[|x| - 1]) && IsMantissa(x[..|x| - 1])
    case ExpSign => |x| > 1 && Sign(x[|x| - 1]) && ExpChar(x[|x| - 2]) && IsMantissa(x[..|x| - 2])
    case ExpDigits => exists a, b :: IsMantissa(a) && IsExp(b) && x == a + b
    case Word(k, n) => 0 < n < |Spelling(k)| && x == Spelling(k)[..n]
  }

  lemma {:induction false} BodyAppend(x: string, y: string)
    requires IsBody(x) && IsBody(y)
    ensures IsBody(x + y)
  {
    if x == "" {
      assert x + y == y;
    } else {
      var k := if PlainChar(x[0]) then 1 else if |x| > 1 && x[0] == '\\' && CtlChar(x[1]) then 2 else 6;
      BodyAppend(x[k..], y);
      assert (x + y)[k..] == x[k..] + y;
    }
  }

  lemma {:induction false} PlainIsBody(x: string)
    requires AllPlain(x)
    ensures IsBody(x)
  {
    if x != "" {
      PlainIsBody(x[1..]);
    }
  }

  lemma {:induction false} BodySnoc(x: string, c: char)
    requires IsBody(x) && PlainChar(c)
    ensures IsBody(x + [c])
  {
    BodyAppend(x, [c]) by {
      assert [c][1..] == "";
    }
  }

  lemma StringSound(q: State, x: string, c: char)
    requires q in {Quote, Chars, Escaped} && ReadIn(q, x)
    ensures ReadIn(StringStep(q, c), x + [c])
  {
    var y := x + [c];
    assert y[1..] == x[1..] + [c];
    if q == Escaped {
      if c == '"' || c == '\\' {
        assert Inner(y) == x[1..];
      } else if c != '\0' {
        BodySnoc(x[1..], c);
      }
    } else {
      assert AllPlain(x[1..]);
      if c == '\\' {
        PlainIsBody(x[1..]);
      }
      if c == '"' || c == '\\' {
        assert Inner(y) == x[1..];
      }
    }
  }

  lemma SlashSound(x: string, c: char)
    requires ReadIn(Slash, x)
    ensures ReadIn(Step(Slash, c), x + [c])
  {
    var y := x + [c];
    if CtlChar(c) {
      var ctl := ['\\', c];
      assert ctl[2..] == "";
      BodyAppend(Inner(x), ctl);
      assert y[1..] == Inner(x) + ctl;
    } else if c == 'u' {
      assert y[1..|y| - 2] == Inner(x);
    }
  }

  lemma HexSound(n: nat, x: string, c: char)
    requires ReadIn(Hex(n), x)
    ensures ReadIn(Step(Hex(n), c), x + [c])
  {
    var y := x + [c];
    if HexDigit(c) {
      var k := |x| - n;
      if n < 3 {
        assert y[1..k - 2] == x[1..k - 2];
      } else {
        var u := y[k - 2..];
        assert u[6..] == "";
        assert forall i | 2 <= i < 6 :: u[i] == y[k - 2 + i];
        BodyAppend(x[1..k - 2], u);
        assert y[1..] == x[1..k - 2] + u;
      }
    }
  }

  lemma SignedSnoc(x: string, c: char)
    requires IsSigned(x) && x != "0" && x != "-0" && Digit(c)
    ensures ReadIn(Digits, x + [c])
  {
    var y := x + [c];
    if x[0] == '-' {
      assert y[1..] == x[1..] + [c];
    }
  }

  lemma IntSound(q: State, x: string, c: char)
    requires q in {Zero, Digits} && ReadIn(q, x)
    ensures ReadIn(IntStep(q, c), x + [c])
  {
    var y := x + [c];
    assert y[..|y| - 1] == x;
    assert IsSigned(x) by {
      if x == "-0" {
        assert x[1..] == "0";
      }
    }
    if ExpChar(c) {
      assert OptFrac("") && x == x + "";
    } else if q == Digits && Digit(c) {
      SignedSnoc(x, c);
    }
  }

  lemma FirstSound(c: char)
    ensures ReadIn(FirstStep(c), [c])
  {
    assert [c][..1] == [c];
    assert "true"[..1] == "t" && "false"[..1] == "f" && "null"[..1] == "n";
  }

  lemma MinusSound(c: char)
    ensures ReadIn(Step(Minus, c), "-" + [c])
  {
    assert ("-" + [c])[1..] == [c];
  }

  lemma DotSound(x: string, c: char)
    requires ReadIn(Dot, x)
    ensures ReadIn(Step(Dot, c), x + [c])
  {
    if Digit(c) {
      var a, b := x[..|x| - 1], ['.', c];
      assert b[1..] == [c];
      assert IsFrac(b) && x + [c] == a + b;
    }
  }

  lemma FractionSound(x: string, c: char)
    requires ReadIn(Fraction, x)
    ensures ReadIn(Step(Fraction, c), x + [c])
  {
    var a, b :| IsSigned(a) && IsFrac(b) && x == a + b;
    var y := x + [c];
    if Digit(c) {
      assert (b + [c])[1..] == b[1..] + [c];
      assert IsFrac(b + [c]) && y == a + (b + [c]);
    } else if ExpChar(c) {
      assert OptFrac(b) && y[..|y| - 1] == a + b;
    }
  }

  lemma ExpSound(q: State, x: string, c: char)
    requires q in {Exp, ExpSign} && ReadIn(q, x)
    ensures ReadIn(Step(q, c), x + [c])
  {
    var y := x + [c];
    if Digit(c) {
      var k := if q == Exp then |x| - 1 else |x| - 2;
      var b := y[k..];
      assert b[|b| - 1..] == [c];
      assert IsExp(b) && y == x[..k] + b;
    } else if q == Exp && Sign(c) {
      assert y[..|y| - 2] == x[..|x| - 1];
    }
  }

  lemma ExpSnoc(b: string, c: char)
    requires IsExp(b) && Digit(c)
    ensures IsExp(b + [c])
  {
    var d := b + [c];
    assert d[1..] == b[1..] + [c] && d[2..] == b[2..] + [c];
  }

  lemma ExpDigitsSound(x: string, c: char)
    requires ReadIn(ExpDigits, x)
    ensures ReadIn(Step(ExpDigits, c), x + [c])
  {
    if Digit(c) {
      var a, b :| IsMantissa(a) && IsExp(b) && x == a + b;
      ExpSnoc(b, c);
      assert x + [c] == a + (b + [c]);
    }
  }

  lemma WordSound(k: Kind, n: nat, x: string, c: char)
    requires ReadIn(Word(k, n), x)
    ensures ReadIn(Step(Word(k, n), c), x + [c])
  {
    var w := Spelling(k);
    if c == w[n] {
      assert x + [c] == w[..n + 1];
      if n + 1 == |w| {
        assert w[..n + 1] == w;
      }
    }
  }

  lemma StepSound(q: State, x: string, c: char)
    requires ReadIn(q, x)
    ensures ReadIn(Step(q, c), x + [c])
  {
    match q
    case Start =>
      FirstSound(c);
      assert x + [c] == [c];
    case Quote => StringSound(q, x, c);
    case Chars => StringSound(q, x, c);
    case Escaped => StringSound(q, x, c);
    case Slash => SlashSound(x, c);
    case Hex(n) => HexSound(n, x, c);
    case Minus => MinusSound(c);
    case Zero => IntSound(q, x, c);
    case Digits => IntSound(q, x, c);
    case Dot => DotSound(x, c);
    case Fraction => FractionSound(x, c);
    case Exp => ExpSound(q, x, c);
    case ExpSign => ExpSound(q, x, c);
    case ExpDigits => ExpDigitsSound(x, c);
    case Word(k, n) => WordSound(k, n, x, c);
    case _ =>
  }

  lemma {:induction false} RunSound(x: string)
    ensures ReadIn(Run(Start, x), x)
  {
    if x != "" {
      var front, c := x[..|x| - 1], x[|x| - 1];
      RunSound(front);
      RunSnoc(Start, front, c);
      assert x == front + [c];
      StepSound(Run(Start, front), front, c);
    }
  }

  lemma AcceptSound(q: State, x: string)
    requires ReadIn(q, x) && Accepts(q).Some?
    ensures Matches(Accepts(q).value, x)
  {
    if Accepts(q).value == Tok(Number) {
      if q == ExpDigits {
        var a, b :| IsMantissa(a) && IsExp(b) && x == a + b;
        assert OptExp(b);
      } else {
        if q == Fraction {
          var a, b :| IsSigned(a) && IsFrac(b) && x == a + b;
          assert OptFrac(b);
        } else {
          assert IsSigned(x) by {
            if x == "-0" {
              assert x[1..] == "0";
            }
          }
          assert OptFrac("") && x == x + "";
        }
        assert OptExp("") && x == x + "";
      }
    }
  }

  // ---- The automaton accepts all that the rules allow ----

  lemma {:induction false} RunBlank(x: string)
    requires AllWs(x)
    ensures Run(Blank, x) == Blank
  {
    if x != "" {
      RunBlank(x[1..]);
    }
  }

  lemma {:induction false} RunPlain(q: State, x: string)
    requires q in {Quote, Chars} && AllPlain(x)
    ensures Run(q, x) in {Quote, Chars}
    decreases x
  {
    if x != "" {
      RunPlain(Chars, x[1..]);
    }
  }

  lemma {:induction false} RunBody(q: State, x: string)
    requires q in {Quote, Chars, Escaped} && IsBody(x)
    ensures Run(q, x) in {Quote, Chars, Escaped}
    decreases x
  {
    if x == "" {
    } else if PlainChar(x[0]) {
      RunBody(StringStep(q, x[0]), x[1..]);
    } else if |x| > 1 && CtlChar(x[1]) {
      RunBody(Escaped, x[2..]);
      RunTwo(q, x);
    } else {
      RunBody(Escaped, x[6..]);
      RunUnicode(q, x[..6]);
      RunAppend(q, x[..6], x[6..]);
      assert x == x[..6] + x[6..];
    }
  }

  lemma {:induction false} RunTwo(q: State, x: string)
    requires |x| > 1
    ensures Run(q, x) == Run(Step(Step(q, x[0]), x[1]), x[2..])
  {
    assert x[1..][1..] == x[2..];
  }

  lemma {:induction false} RunUnicode(q: State, u: string)
    requires q in {Quote, Chars, Escaped} && |u| == 6
    requires u[0] == '\\' && u[1] == 'u' && forall i | 2 <= i < 6 :: HexDigit(u[i])
    ensures Run(q, u) == Escaped
  {
    RunTwo(q, u);
    RunTwo(Hex(0), u[2..]);
    RunTwo(Hex(2), u[4..]);
    assert u[2..][2..] == u[4..] && u[4..][2..] == "";
  }

  lemma {:induction false} RunDigits(q: State, x: string)
    requires q in {Digits, Fraction, ExpDigits} && AllDigits(x)
    ensures Run(q, x) == q
    decreases x
  {
    if x != "" {
      RunDigits(q, x[1..]);
    }
  }

  lemma {:induction false} RunInt(q: State, x: string)
    requires q in {Start, Minus} && IsInt(x)
    ensures Run(q, x) in {Zero, Digits}
  {
    if x == "0" {
      assert x[1..] == "";
    } else {
      assert Digit(x[0]);
      RunDigits(Digits, x[1..]);
    }
  }

  lemma {:induction false} RunSigned(x: string)
    requires IsSigned(x)
    ensures Run(Start, x) in {Zero, Digits}
  {
    if x[0] == '-' {
      RunInt(Minus, x[1..]);
    } else {
      RunInt(Start, x);
    }
  }

  lemma {:induction false} RunFrac(q: State, b: string)
    requires q in {Zero, Digits} && IsFrac(b)
    ensures Run(q, b) == Fraction
  {
    RunTwo(q, b);
    assert Digit(b[1..][0]);
    assert forall i | 0 <= i < |b[2..]| :: b[2..][i] == b[1..][i + 1];
    RunDigits(Fraction, b[2..]);
  }

  lemma {:induction false} RunMantissa(x: string)
    requires IsMantissa(x)
    ensures Run(Start, x) in {Zero, Digits, Fraction}
  {
    var a, b :| IsSigned(a) && OptFrac(b) && x == a + b;
    RunSigned(a);
    RunAppend(Start, a, b);
    if b != "" {
      RunFrac(Run(Start, a), b);
    }
  }

  lemma {:induction false} RunExp(q: State, b: string)
    requires q in {Zero, Digits, Fraction} && IsExp(b)
    ensures Run(q, b) == ExpDigits
  {
    RunTwo(q, b);
    if Sign(b[1]) {
      RunDigits(ExpDigits, b[3..]) by {
        assert forall i | 0 <= i < |b[3..]| :: b[3..][i] == b[2..][i + 1];
      }
      assert Digit(b[2..][0]) && b[2..][1..] == b[3..];
    } else {
      assert Digit(b[1..][0]);
      RunDigits(ExpDigits, b[2..]) by {
        assert forall i | 0 <= i < |b[2..]| :: b[2..][i] == b[1..][i + 1];
      }
    }
  }

  lemma {:induction false} RunNumber(x: string)
    requires IsNumber(x)
    ensures Run(Start, x) in {Zero, Digits, Fraction, ExpDigits}
  {
    var a, b :| IsMantissa(a) && OptExp(b) && x == a + b;
    RunMantissa(a);
    RunAppend(Start, a, b);
    if b != "" {
      RunExp(Run(Start, a), b);
    }
  }

  lemma RunOne(c: char)
    ensures Run(Start, [c]) == FirstStep(c)
  {
    assert [c][1..] == "";
    assert Run(FirstStep(c), "") == FirstStep(c);
  }

  lemma {:induction false} RunWord(k: Kind, n: nat, x: string)
    requires k in {True, False, Null} && 0 < n < |Spelling(k)| && x == Spelling(k)[n..]
    ensures Run(Word(k, n), x) == Done(k)
    decreases x
  {
    if |x| == 1 {
      assert x[1..] == "";
      assert Run(Done(k), "") == Done(k);
    } else {
      RunWord(k, n + 1, x[1..]);
    }
  }

  lemma {:induction false} RunQuoted(x: string)
    requires Quoted(x) && IsBody(Inner(x))
    ensures Run(Start, x) in {Done(String), Done(NoescString)}
    ensures AllPlain(Inner(x)) ==> Run(Start, x) == Done(NoescString)
  {
    RunBody(Quote, Inner(x));
    if AllPlain(Inner(x)) {
      RunPlain(Quote, Inner(x));
    }
    assert x == [x[0]] + Inner(x) + ['"'];
    RunOne(x[0]);
    RunAppend(Start, [x[0]], Inner(x));
    RunSnoc(Start, [x[0]] + Inner(x), '"');
  }

  lemma {:induction false} RunOneChar(r: Rule, x: string)
    requires Matches(r, x) && |x| == 1
    ensures Accepts(Run(Start, x)).Some? && Order(Accepts(Run(Start, x)).value) <= Order(r)
  {
    assert x == [x[0]];
    RunOne(x[0]);
    if r == Tok(Number) {
      RunNumber(x);
    }
  }

  lemma RunWords(k: Kind)
    requires k in {True, False, Null}
    ensures Run(Start, Spelling(k)) == Done(k)
  {
    RunWord(k, 1, Spelling(k)[1..]);
  }

  lemma {:induction false} RunComplete(r: Rule, x: string)
    requires Matches(r, x)
    ensures Accepts(Run(Start, x)).Some? && Order(Accepts(Run(Start, x)).value) <= Order(r)
  {
    if |x| == 1 {
      RunOneChar(r, x);
    } else if r == Space {
      RunBlank(x[1..]);
    } else if r == Tok(Number) {
      RunNumber(x);
    } else if r == Tok(String) {
      RunQuoted(x);
    } else if r == Tok(NoescString) {
      PlainIsBody(Inner(x));
      RunQuoted(x);
    } else {
      RunWords(r.kind);
    }
  }

  /** A rule matches a text, and no earlier one does. */
  ghost predicate FirstMatch(r: Rule, x: string)
  {
    Matches(r, x) && forall r2: Rule | Matches(r2, x) :: Order(r) <= Order(r2)
  }

  /** The automaton decides the rules: it accepts a text exactly when some rule matches it, and for the
      first rule that does. */
  lemma {:induction false} RunDecides(x: string)
    ensures match Accepts(Run(Start, x))
      case None => forall r: Rule :: !Matches(r, x)
      case Some(r) => FirstMatch(r, x)
  {
    RunSound(x);
    var a := Accepts(Run(Start, x));
    if a.Some? {
      AcceptSound(Run(Start, x), x);
    }
    forall r: Rule | Matches(r, x)
      ensures a.Some? && Order(a.value) <= Order(r)
    {
      RunComplete(r, x);
    }
  }

  // ---- The longest match ----

  datatype Match = Match(rule: Rule, end: nat)

  /** What is remembered after one more character */
  function Remember(q: State, c: nat, best: Match): Match
  {
    if Accepts(q).Some? then Match(Accepts(q).value, c) else best
  }

  /** The longest match when the automaton has come to a state at some position and remembers its last
      accepted match. */
  function Continue(z: string, c: nat, q: State, best: Match): Match
    requires c <= |z|
    decreases |z| - c
  {
    if q == Dead || c == |z| then best
    else
      var next := Step(q, z[c]);
      Continue(z, c + 1, next, Remember(next, c + 1, best))
  }

  function ScanMatch(z: string, s: nat): Match
    requires s < |z|
  {
    Continue(z, s, Start, Match(Tok(Invalid), s))
  }

  /** A match from a position that no longer one exceeds, by the first rule that gives it. */
  ghost predicate LongestMatch(z: string, s: nat, m: Match)
  {
    && s < m.end <= |z| && FirstMatch(m.rule, z[s..m.end])
    && forall r: Rule, e | m.end < e <= |z| :: !Matches(r, z[s..e])
  }

  ghost predicate LongestSoFar(z: string, s: nat, c: nat, m: Match)
  {
    && s < m.end <= c <= |z| && FirstMatch(m.rule, z[s..m.end])
    && forall r: Rule, e | m.end < e <= c :: !Matches(r, z[s..e])
  }

  lemma RunTo(z: string, s: nat, c: nat)
    requires s <= c < |z|
    ensures Run(Start, z[s..c + 1]) == Step(Run(Start, z[s..c]), z[c])
  {
    RunSnoc(Start, z[s..c], z[c]);
    assert z[s..c + 1] == z[s..c] + [z[c]];
  }

  lemma DeadMatchesNothing(z: string, s: nat, c: nat, e: nat, r: Rule)
    requires s <= c < e <= |z| && Run(Start, z[s..c]) == Dead
    ensures !Matches(r, z[s..e])
  {
    RunAppend(Start, z[s..c], z[c..e]);
    RunDead(z[c..e]);
    assert z[s..e] == z[s..c] + z[c..e];
    if Matches(r, z[s..e]) {
      RunComplete(r, z[s..e]);
    }
  }

  lemma LongestStep(z: string, s: nat, c: nat, best: Match)
    requires LongestSoFar(z, s, c, best) && c < |z|
    ensures LongestSoFar(z, s, c + 1, Remember(Run(Start, z[s..c + 1]), c + 1, best))
  {
    RunDecides(z[s..c + 1]);
  }

  lemma {:induction false} ContinueLongest(z: string, s: nat, c: nat, q: State, best: Match)
    requires LongestSoFar(z, s, c, best) && q == Run(Start, z[s..c])
    ensures LongestMatch(z, s, Continue(z, c, q, best))
    decreases |z| - c
  {
    if q == Dead {
      forall r: Rule, e | c < e <= |z|
        ensures !Matches(r, z[s..e])
      {
        DeadMatchesNothing(z, s, c, e, r);
      }
    } else if c < |z| {
      RunTo(z, s, c);
      LongestStep(z, s, c, best);
      ContinueLongest(z, s, c + 1, Step(q, z[c]), Remember(Step(q, z[c]), c + 1, best));
    }
  }

  /** The scan finds the longest match of the rules. */
  lemma ScanLongest(z: string, s: nat)
    requires s < |z|
    ensures LongestMatch(z, s, ScanMatch(z, s))
  {
    RunTo(z, s, s);
    assert z[s..s] == "" && Run(Start, "") == Start;
    RunDecides(z[s..s + 1]);
    ContinueLongest(z, s, s + 1, FirstStep(z[s]), Match(Accepts(FirstStep(z[s])).value, s + 1));
  }

  /** The longest match is unique. */
  lemma LongestUnique(z: string, s: nat, m: Match)
    requires s < |z| && LongestMatch(z, s, m)
    ensures m == ScanMatch(z, s)
  {
    var n := ScanMatch(z, s);
    ScanLongest(z, s);
    assert n.end == m.end;
    assert Order(m.rule) == Order(n.rule);
    OrderInjective(m.rule, n.rule);
  }

  lemma OrderInjective(r1: Rule, r2: Rule)
    requires Order(r1) == Order(r2)
    ensures r1 == r2
  {
  }

  // ---- Tokens ----

  /** A C string with its terminator */
  function Z(text: string): string
  {
    text + "\0"
  }

  function At(text: string, i: nat): char
  {
    if i < |text| then text[i] else '\0'
  }

  /** A token and where it is; nothing is said about where the end of the text or an invalid
      character is. */
  datatype Lexed = Lexed(kind: Kind, start: nat, end: nat)

  /** Kinds of tokens that have a place */
  predicate Real(k: Kind)
  {
    k != End && k != Invalid
  }

  lemma {:induction false} FirstMatchAccepts(r: Rule, x: string)
    requires FirstMatch(r, x)
    ensures Accepts(Run(Start, x)) == Some(r)
  {
    RunDecides(x);
    OrderInjective(r, Accepts(Run(Start, x)).value);
  }

  /** A match that includes the terminator is not of a real token. */
  lemma NulNotReal(r: Rule, x: string)
    requires x != "" && x[|x| - 1] == '\0' && FirstMatch(r, x)
    ensures r.Tok? && !Real(r.kind)
  {
    RunSnoc(Start, x[..|x| - 1], '\0');
    assert x == x[..|x| - 1] + ['\0'];
    FirstMatchAccepts(r, x);
    NulStep(Run(Start, x[..|x| - 1]));
  }

  lemma NulStep(q: State)
    ensures var n := Step(q, '\0'); Accepts(n).Some? ==> Accepts(n).value.Tok? && !Real(Accepts(n).value.kind)
  {
  }

  lemma ScanWithin(text: string, pos: nat)
    requires pos <= |text|
    ensures var m := ScanMatch(Z(text), pos);
      pos < m.end <= |text| + 1 && (m.rule == Space || Real(m.rule.kind) ==> m.end <= |text|)
  {
    var m := ScanMatch(Z(text), pos);
    ScanLongest(Z(text), pos);
    if m.end == |text| + 1 {
      NulNotReal(m.rule, Z(text)[pos..m.end]);
    }
  }

  /** The next token after white space */
  function NextToken(text: string, pos: nat): (t: Lexed)
    requires pos <= |text|
    ensures Real(t.kind) ==> pos <= t.start < t.end <= |text|
    decreases |text| - pos
  {
    var m := ScanMatch(Z(text), pos);
    ScanWithin(text, pos);
    if m.rule == Space then NextToken(text, m.end)
    else if Real(m.rule.kind) then Lexed(m.rule.kind, pos, m.end)
    else Lexed(m.rule.kind, 0, 0)
  }

  // ---- The generated code ----

  lemma Advance(z: string, c: nat, q: State, best: Match)
    requires c < |z| && q != Dead
    ensures var n := Step(q, z[c]);
      Continue(z, c, q, best) == if n == Dead then best else Continue(z, c + 1, n, Remember(n, c + 1, best))
  {
  }

  /** The state in which the code arrives at a label after the increment there */
  function StringLabel(pc: nat): State
  {
    match pc
    case 52 => Chars
    case 54 => Slash
    case 57 => Hex(0)
    case 58 => Escaped
    case 62 => Hex(1)
    case 63 => Hex(2)
    case 64 => Hex(3)
    case _ => Dead
  }

  /** What is left to do at a label; 53 is entered without an increment, 29 backtracks, and 55 and 60 stand
      for the end of the string. */
  ghost function StringGoal(text: string, c: nat, pc: nat, none: Match): Match
    requires c <= |text| && (pc !in {29, 53} ==> c < |text|)
  {
    if pc == 29 then none
    else if pc == 53 then Continue(Z(text), c, Chars, none)
    else if pc == 55 then Match(Tok(NoescString), c + 1)
    else if pc == 60 then Match(Tok(String), c + 1)
    else Continue(Z(text), c + 1, StringLabel(pc), none)
  }

  lemma CharsAdvance(text: string, c: nat, pc: nat, none: Match)
    requires c <= |text| && CharsBranch(At(text, c), pc)
    ensures pc != 29 ==> c < |text|
    ensures StringGoal(text, c, 53, none) == StringGoal(text, c, pc, none)
  {
    Advance(Z(text), c, Chars, none);
    if pc == 55 {
      Advance(Z(text), c + 1, Done(NoescString), Match(Tok(NoescString), c + 1));
    }
  }

  lemma EscapeAdvance(text: string, c: nat, pc0: nat, pc: nat, none: Match)
    requires c < |text| && InEscape(pc0) && EscapeBranch(pc0, At(text, c + 1), pc)
    ensures pc != 29 ==> c + 1 < |text|
    ensures StringGoal(text, c, pc0, none) == StringGoal(text, c + 1, pc, none)
  {
    Advance(Z(text), c + 1, StringLabel(pc0), none);
    if pc == 60 {
      Advance(Z(text), c + 2, Done(String), Match(Tok(String), c + 2));
    }
  }

  /** yy52 to yy64: inside a string whose opening quote has been read */
  method ScanString(text: string, c0: nat) returns (kind: Kind, end: nat)
    requires c0 <= |text|
    ensures Match(Tok(kind), end) == Continue(Z(text), c0, Chars, Match(Tok(Invalid), c0))
  {
    ghost var none := Match(Tok(Invalid), c0);
    var c, m := c0, c0;
    var pc := 53;
    while pc != 29
      invariant c0 <= c <= |text| && (pc != 29 && pc != 53 ==> c < |text|)
      invariant pc == 29 || pc == 52 || pc == 53 || InEscape(pc)
      invariant StringGoal(text, c, pc, none) == StringGoal(text, c0, 53, none)
      decreases pc != 29, |text| - c, pc == 53
    {
      ghost var pc0 := pc;
      if pc == 53 {
        pc := CharsLabel(At(text, c));
        CharsAdvance(text, c, pc, none);
        if pc == 55 {
          return NoescString, c + 1;
        }
      } else {
        c := c + 1;
        if pc == 52 {
          pc := 53;
        } else {
          pc := EscapeLabel(pc, At(text, c));
          EscapeAdvance(text, c - 1, pc0, pc, none);
          if pc == 60 {
            return String, c + 1;
          }
        }
      }
    }
    return Invalid, m;
  }

  predicate InEscape(pc: nat)
  {
    pc in {54, 57, 58, 62, 63, 64}
  }

  predicate CharsBranch(yych: char, pc: nat)
  {
    if pc == 29 then StringStep(Chars, yych) == Dead
    else if pc == 55 then StringStep(Chars, yych) == Done(NoescString)
    else pc in {52, 54} && yych != '\0' && StringStep(Chars, yych) == StringLabel(pc)
  }

  predicate EscapeBranch(pc0: nat, yych: char, pc: nat)
  {
    if pc == 29 then Step(StringLabel(pc0), yych) == Dead
    else if pc == 60 then Step(StringLabel(pc0), yych) == Done(String)
    else InEscape(pc) && yych != '\0' && Step(StringLabel(pc0), yych) == StringLabel(pc)
  }

  /** The branches of yy53; 55 stands for the end of the string. */
  method CharsLabel(yych: char) returns (pc: nat)
    ensures CharsBranch(yych, pc)
  {
    if yych <= '"' {
      if yych <= '\0' {
        pc := 29;
      } else if yych <= '!' {
        pc := 52;
      } else {
        pc := 55;
      }
    } else if yych != '\\' {
      pc := 52;
    } else {
      pc := 54;
    }
  }

  /** The branches of yy54, yy57, yy58 and yy62 to yy64; 60 stands for the end of the string. */
  method EscapeLabel(pc0: nat, yych: char) returns (pc: nat)
    requires InEscape(pc0)
    ensures EscapeBranch(pc0, yych, pc)
  {
    if pc0 == 54 {
      pc := SlashLabel(yych);
    } else if pc0 == 58 {
      if yych <= '"' {
        if yych <= '\0' {
          pc := 29;
        } else if yych <= '!' {
          pc := 58;
        } else {
          pc := 60;
        }
      } else if yych == '\\' {
        pc := 54;
      } else {
        pc := 58;
      }
    } else {
      var next := if pc0 == 57 then 62 else if pc0 == 62 then 63 else if pc0 == 63 then 64 else 58;
      if yych <= '@' {
        if yych <= '/' {
          pc := 29;
        } else if yych <= '9' {
          pc := next;
        } else {
          pc := 29;
        }
      } else if yych <= 'F' {
        pc := next;
      } else if yych <= '\U{60}' {
        pc := 29;
      } else if yych <= 'f' {
        pc := next;
      } else {
        pc := 29;
      }
    }
  }

  /** The branches of yy54 */
  method SlashLabel(yych: char) returns (pc: nat)
    ensures pc == 29 ==> Step(Slash, yych) == Dead
    ensures pc != 29 ==> pc in {57, 58} && Step(Slash, yych) == StringLabel(pc)
  {
    pc := 29;
    if yych <= 'e' {
      if yych <= '/' {
        if yych == '"' {
          pc := 58;
        } else if yych <= '.' {
          pc := 29;
        } else {
          pc := 58;
        }
      } else if yych <= '\\' {
        if yych <= '[' {
          pc := 29;
        } else {
          pc := 58;
        }
      } else if yych == 'b' {
        pc := 58;
      }
    } else if yych <= 'q' {
      if yych <= 'f' {
        pc := 58;
      } else if yych == 'n' {
        pc := 58;
      }
    } else if yych <= 's' {
      if yych <= 'r' {
        pc := 58;
      }
    } else if yych <= 't' {
      pc := 58;
    } else if yych <= 'u' {
      pc := 57;
    }
  }

  function NumberLabel(pc: nat): State
  {
    match pc
    case 42 => Digits
    case 44 => Dot
    case 45 => Exp
    case 46 => ExpSign
    case 47 => ExpDigits
    case 49 => Fraction
    case 51 => Zero
    case _ => Dead
  }

  predicate InNumber(pc: nat)
  {
    pc in {42, 44, 45, 46, 47, 49, 51}
  }

  /** How a label of the number part goes on after the increment there; 20 accepts, 29 backtracks. */
  predicate DigitBranch(pc0: nat, yych: char, pc: nat)
  {
    if pc == 20 then pc0 in {42, 47, 49, 51} && Step(NumberLabel(pc0), yych) == Dead
    else if pc == 29 then pc0 in {44, 45, 46} && Step(NumberLabel(pc0), yych) == Dead
    else InNumber(pc) && yych != '\0' && Step(NumberLabel(pc0), yych) == NumberLabel(pc)
  }

  /** What is left to do at a label */
  ghost function NumberGoal(text: string, c: nat, m: nat, pc: nat): Match
    requires c <= |text| && (InNumber(pc) ==> c < |text|)
  {
    if InNumber(pc) then
      Continue(Z(text), c + 1, NumberLabel(pc), Remember(NumberLabel(pc), c + 1, Match(Tok(Number), m)))
    else Match(Tok(Number), if pc == 20 then c else m)
  }

  lemma NumberAdvance(text: string, c: nat, m: nat, pc0: nat, pc: nat)
    requires c < |text| && InNumber(pc0) && DigitBranch(pc0, At(text, c + 1), pc)
    ensures InNumber(pc) ==> c + 1 < |text|
    ensures NumberGoal(text, c, m, pc0) == NumberGoal(text, c + 1, if pc0 in {42, 49, 51} then c + 1 else m, pc)
  {
    Advance(Z(text), c + 1, NumberLabel(pc0), Remember(NumberLabel(pc0), c + 1, Match(Tok(Number), m)));
  }

  /** yy42 to yy51: inside a number, entered at yy42 or yy51 with its last character not yet passed.
      The other entries, yy19 and yy21, do the same. */
  method ScanNumber(text: string, c0: nat, pc0: nat) returns (end: nat)
    requires c0 < |text| && pc0 in {42, 51}
    ensures Match(Tok(Number), end) == Continue(Z(text), c0 + 1, NumberLabel(pc0), Match(Tok(Number), c0 + 1))
  {
    var c: nat, m: nat, pc: nat := c0, c0, pc0;
    while pc != 20 && pc != 29
      invariant c0 <= c <= |text|
      invariant pc == 20 || pc == 29 || (InNumber(pc) && c < |text|)
      invariant NumberGoal(text, c, m, pc) == NumberGoal(text, c0, c0, pc0)
      decreases pc != 20 && pc != 29, |text| - c
    {
      ghost var c1, m1, pc1 := c, m, pc;
      c := c + 1;
      if pc == 42 || pc == 49 || pc == 51 {
        m := c;
      }
      pc := DigitLabel(pc, At(text, c));
      NumberAdvance(text, c1, m1, pc1, pc);
    }
    end := if pc == 20 then c else m;
  }

  /** The branches of yy43 to yy51; 20 accepts, 29 backtracks. */
  method DigitLabel(pc0: nat, yych: char) returns (pc: nat)
    requires InNumber(pc0)
    ensures DigitBranch(pc0, yych, pc)
  {
    if pc0 == 42 {
      if yych <= '9' {
        pc := if yych == '.' then 44 else if yych <= '/' then 20 else 42;
      } else if yych <= 'E' {
        pc := if yych <= 'D' then 20 else 45;
      } else {
        pc := if yych == 'e' then 45 else 20;
      }
    } else if pc0 == 44 {
      pc := if yych <= '/' then 29 else if yych <= '9' then 49 else 29;
    } else if pc0 == 45 {
      if yych <= ',' {
        pc := if yych != '+' then 29 else 46;
      } else {
        pc := if yych <= '-' then 46 else if yych <= '/' then 29 else if yych <= '9' then 47 else 29;
      }
    } else if pc0 == 46 {
      pc := if yych <= '/' then 29 else if yych >= ':' then 29 else 47;
    } else if pc0 == 47 {
      pc := if yych <= '/' then 20 else if yych <= '9' then 47 else 20;
    } else if pc0 == 49 {
      if yych <= 'D' {
        pc := if yych <= '/' then 20 else if yych <= '9' then 49 else 20;
      } else {
        pc := if yych <= 'E' then 45 else if yych == 'e' then 45 else 20;
      }
    } else {
      if yych <= 'D' {
        pc := if yych == '.' then 44 else 20;
      } else {
        pc := if yych <= 'E' then 45 else if yych == 'e' then 45 else 20;
      }
    }
  }

  /** yy65: a run of white space */
  method ScanSpace(text: string, c0: nat) returns (c: nat)
    requires c0 <= |text|
    ensures Match(Space, c) == Continue(Z(text), c0, Blank, Match(Space, c0))
  {
    c := c0;
    while true
      invariant c0 <= c <= |text|
      invariant Continue(Z(text), c0, Blank, Match(Space, c0)) == Continue(Z(text), c, Blank, Match(Space, c))
      decreases |text| - c
    {
      var yych := At(text, c);
      Advance(Z(text), c, Blank, Match(Space, c));
      if yych <= '\U{c}' {
        if yych <= '\U{8}' {
          return;
        } else if yych <= '\n' {
          c := c + 1;
        } else {
          return;
        }
      } else if yych <= '\r' {
        c := c + 1;
      } else if yych == ' ' {
        c := c + 1;
      } else {
        return;
      }
    }
  }

  /** At a letter of a word: any other letter than the expected one backtracks to the invalid single
      character. */
  lemma WordAdvance(text: string, c: nat, k: Kind, n: nat, letter: char, none: Match)
    requires c <= |text| && k in {True, False, Null} && 1 <= n < |Spelling(k)| && letter == Spelling(k)[n] != '\0'
    ensures At(text, c) == letter ==> c < |text|
    ensures Continue(Z(text), c, Word(k, n), none) ==
      if At(text, c) != letter then none
      else if n + 1 == |Spelling(k)| then Match(Tok(k), c + 1)
      else Continue(Z(text), c + 1, Word(k, n + 1), none)
  {
    Advance(Z(text), c, Word(k, n), none);
    if At(text, c) == letter && n + 1 == |Spelling(k)| {
      Advance(Z(text), c + 1, Done(k), Match(Tok(k), c + 1));
    }
  }

  /** yy22 and yy38 */
  method ScanTrue(text: string, c: nat) returns (k: Kind, end: nat)
    requires c <= |text|
    ensures Match(Tok(k), end) == Continue(Z(text), c, Word(True, 1), Match(Tok(Invalid), c))
  {
    ghost var none := Match(Tok(Invalid), c);
    WordAdvance(text, c, True, 1, 'r', none);
    if At(text, c) != 'r' {
      return Invalid, c;
    }
    WordAdvance(text, c + 1, True, 2, 'u', none);
    if At(text, c + 1) != 'u' {
      return Invalid, c;
    }
    WordAdvance(text, c + 2, True, 3, 'e', none);
    if At(text, c + 2) != 'e' {
      return Invalid, c;
    }
    return True, c + 3;
  }

  /** yy23 and yy33 */
  method ScanFalse(text: string, c: nat) returns (k: Kind, end: nat)
    requires c <= |text|
    ensures Match(Tok(k), end) == Continue(Z(text), c, Word(False, 1), Match(Tok(Invalid), c))
  {
    ghost var none := Match(Tok(Invalid), c);
    WordAdvance(text, c, False, 1, 'a', none);
    if At(text, c) != 'a' {
      return Invalid, c;
    }
    WordAdvance(text, c + 1, False, 2, 'l', none);
    if At(text, c + 1) != 'l' {
      return Invalid, c;
    }
    WordAdvance(text, c + 2, False, 3, 's', none);
    if At(text, c + 2) != 's' {
      return Invalid, c;
    }
    WordAdvance(text, c + 3, False, 4, 'e', none);
    if At(text, c + 3) != 'e' {
      return Invalid, c;
    }
    return False, c + 4;
  }

  /** yy24, yy28 and yy30 */
  method ScanNull(text: string, c: nat) returns (k: Kind, end: nat)
    requires c <= |text|
    ensures Match(Tok(k), end) == Continue(Z(text), c, Word(Null, 1), Match(Tok(Invalid), c))
  {
    ghost var none := Match(Tok(Invalid), c);
    WordAdvance(text, c, Null, 1, 'u', none);
    if At(text, c) != 'u' {
      return Invalid, c;
    }
    WordAdvance(text, c + 1, Null, 2, 'l', none);
    if At(text, c + 1) != 'l' {
      return Invalid, c;
    }
    WordAdvance(text, c + 2, Null, 3, 'l', none);
    if At(text, c + 2) != 'l' {
      return Invalid, c;
    }
    return Null, c + 3;
  }

  /** The state after the first character, by the label the code goes to */
  function FirstLabelState(pc: nat): State
  {
    match pc
    case 2 => Blank
    case 4 => Done(ObjStart)
    case 6 => Done(ObjEnd)
    case 8 => Done(ArrayStart)
    case 10 => Done(ArrayEnd)
    case 12 => Quote
    case 14 => Done(Colon)
    case 16 => Done(Comma)
    case 18 => Minus
    case 19 => Zero
    case 21 => Digits
    case 22 => Word(True, 1)
    case 23 => Word(False, 1)
    case 24 => Word(Null, 1)
    case 25 => Done(End)
    case 27 => Other
    case _ => Dead
  }

  /** The first dispatch */
  method FirstLabel(yych: char) returns (pc: nat)
    ensures FirstStep(yych) == FirstLabelState(pc)
  {
    if yych <= '9' {
      if yych <= ' ' {
        if yych <= '\n' {
          pc := if yych <= '\0' then 25 else if yych <= '\U{8}' then 27 else 2;
        } else {
          pc := if yych == '\r' then 2 else if yych <= '\U{1f}' then 27 else 2;
        }
      } else if yych <= ',' {
        pc := if yych == '"' then 12 else if yych <= '+' then 27 else 16;
      } else {
        pc := if yych <= '-' then 18 else if yych <= '/' then 27 else if yych <= '0' then 19 else 21;
      }
    } else if yych <= 'm' {
      if yych <= '\\' {
        pc := if yych <= ':' then 14 else if yych == '[' then 8 else 27;
      } else {
        pc := if yych <= ']' then 10 else if yych == 'f' then 23 else 27;
      }
    } else if yych <= 'z' {
      pc := if yych <= 'n' then 24 else if yych == 't' then 22 else 27;
    } else {
      pc := if yych <= '{' then 4 else if yych == '}' then 6 else 27;
    }
  }

  /** yy18: after a minus sign */
  method ScanMinus(text: string, c: nat) returns (k: Kind, end: nat)
    requires c <= |text|
    ensures Match(Tok(k), end) == Continue(Z(text), c, Minus, Match(Tok(Invalid), c))
  {
    var yych := At(text, c);
    Advance(Z(text), c, Minus, Match(Tok(Invalid), c));
    if yych <= '/' {
      k, end := Invalid, c;
    } else if yych <= '0' {
      end := ScanNumber(text, c, 51);
      k := Number;
    } else if yych <= '9' {
      end := ScanNumber(text, c, 42);
      k := Number;
    } else {
      k, end := Invalid, c;
    }
  }

  /** yy12: after a quote */
  method ScanQuote(text: string, c: nat) returns (k: Kind, end: nat)
    requires c <= |text|
    ensures Match(Tok(k), end) == Continue(Z(text), c, Quote, Match(Tok(Invalid), c))
  {
    Advance(Z(text), c, Quote, Match(Tok(Invalid), c));
    if At(text, c) >= '\U{1}' {
      Advance(Z(text), c, Chars, Match(Tok(Invalid), c));
      k, end := ScanString(text, c);
    } else {
      k, end := Invalid, c;
    }
  }

  /** yy22 to yy24 */
  method ScanWord(text: string, c: nat, pc: nat) returns (k: Kind, end: nat)
    requires c <= |text| && pc in {22, 23, 24}
    ensures Match(Tok(k), end) == Continue(Z(text), c, FirstLabelState(pc), Match(Tok(Invalid), c))
  {
    if pc == 22 {
      k, end := ScanTrue(text, c);
    } else if pc == 23 {
      k, end := ScanFalse(text, c);
    } else {
      k, end := ScanNull(text, c);
    }
  }

  /** yy4 to yy10, yy14, yy16, yy25 and yy27: single characters */
  method ScanSingle(text: string, s: nat, pc: nat) returns (rule: Rule)
    requires s <= |text| && pc in {4, 6, 8, 10, 14, 16, 25, 27}
    ensures Match(rule, s + 1) == FirstGoal(text, s, FirstLabelState(pc))
  {
    var q := FirstLabelState(pc);
    rule := Tok(if pc == 27 then Invalid else q.kind);
    if s < |text| {
      Advance(Z(text), s + 1, q, Match(rule, s + 1));
    }
  }

  /** What is left to do after the first character */
  ghost function FirstGoal(text: string, s: nat, q: State): Match
    requires s <= |text|
  {
    Continue(Z(text), s + 1, q, Remember(q, s + 1, Match(Tok(Invalid), s)))
  }

  /** The code at the label of the first character */
  method ScanFirst(text: string, s: nat, pc: nat) returns (rule: Rule, c: nat)
    requires s <= |text| && FirstStep(At(text, s)) == FirstLabelState(pc)
    ensures Match(rule, c) == FirstGoal(text, s, FirstLabelState(pc))
  {
    c := s + 1;
    if pc == 2 {
      c := ScanSpace(text, c);
      rule := Space;
    } else if pc == 12 || pc == 18 || pc == 22 || pc == 23 || pc == 24 {
      var k;
      if pc == 12 {
        k, c := ScanQuote(text, c);
      } else if pc == 18 {
        k, c := ScanMinus(text, c);
      } else {
        k, c := ScanWord(text, c, pc);
      }
      rule := Tok(k);
    } else if pc == 19 || pc == 21 {
      c := ScanNumber(text, s, if pc == 19 then 51 else 42);
      rule := Tok(Number);
    } else {
      rule := ScanSingle(text, s, pc);
    }
  }

  /** One pass of the generated code: the longest match of the rules */
  method ScanRules(text: string, s: nat) returns (rule: Rule, c: nat)
    requires s <= |text|
    ensures Match(rule, c) == ScanMatch(Z(text), s)
    ensures LongestMatch(Z(text), s, Match(rule, c))
  {
    var pc := FirstLabel(At(text, s));
    Advance(Z(text), s, Start, Match(Tok(Invalid), s));
    rule, c := ScanFirst(text, s, pc);
    ScanLongest(Z(text), s);
  }

  /** `s_json_get_token` */
  method GetToken(text: string, pos: nat) returns (t: Lexed)
    requires pos <= |text|
    ensures t == NextToken(text, pos)
  {
    var c := pos;
    while true
      invariant pos <= c <= |text|
      invariant NextToken(text, c) == NextToken(text, pos)
      decreases |text| - c
    {
      var s := c;
      var rule;
      ScanWithin(text, s);
      rule, c := ScanRules(text, s);
      if rule == Space {
        continue;
      }
      t := if Real(rule.kind) then Lexed(rule.kind, s, c) else Lexed(rule.kind, 0, 0);
      return;
    }
  }
}
