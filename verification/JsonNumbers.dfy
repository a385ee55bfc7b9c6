/** Integers in decimal: printing them and reading them from number tokens. */
module JsonNumbers {
  import opened JsonLexer
  import opened JsonTokens

  function DigitChar(d: nat): char
    requires d < 10
  {
    (d + '0' as int) as char
  }

  function DigitValue(c: char): nat
    requires Digit(c)
  {
    c as int - '0' as int
  }

  function Decimal(n: nat): string
  {
    if n < 10 then [DigitChar(n)] else Decimal(n / 10) + [DigitChar(n % 10)]
  }

  function DigitsValue(x: string): nat
    requires AllDigits(x)
  {
    if x == "" then 0 else DigitsValue(x[..|x| - 1]) * 10 + DigitValue(x[|x| - 1])
  }

  lemma {:induction false} DecimalShape(n: nat)
    ensures AllDigits(Decimal(n)) && Decimal(n) != "" && DigitsValue(Decimal(n)) == n
    ensures Decimal(n)[0] == '0' <==> n == 0
    ensures n == 0 ==> Decimal(n) == "0"
  {
    var x := Decimal(n);
    if n < 10 {
      assert x[..0] == "";
    } else {
      DecimalShape(n / 10);
      assert x[..|x| - 1] == Decimal(n / 10);
    }
  }

  /** %lld */
  function IntText(n: int): string
  {
    if n < 0 then "-" + Decimal(-n) else Decimal(n)
  }

  function IntLexeme(n: int): Lexeme
  {
    Lexeme(Number, IntText(n))
  }

  lemma IntTextSigned(n: int)
    ensures IsSigned(IntText(n))
  {
    DecimalShape(if n < 0 then -n else n);
    if n < 0 {
      assert IntText(n)[1..] == Decimal(-n);
    }
  }

  lemma SignedGenuine(x: string)
    requires IsSigned(x)
    ensures Genuine(Lexeme(Number, x))
  {
    RunSigned(x);
  }

  lemma IntLexemeGenuine(n: int)
    ensures Genuine(IntLexeme(n))
  {
    IntTextSigned(n);
    SignedGenuine(IntText(n));
  }

  /** Where the digits end */
  function DigitStop(x: string, i: nat): (n: nat)
    requires i <= |x|
    ensures i <= n <= |x| && (forall k | i <= k < n :: Digit(x[k])) && (n < |x| ==> !Digit(x[n]))
    decreases |x| - i
  {
    if i == |x| || !Digit(x[i]) then i else DigitStop(x, i + 1)
  }

  function SignLength(x: string): (n: nat)
    ensures n <= |x|
  {
    if x != "" && x[0] == '-' then 1 else 0
  }

  /** The integer at the start of a number, as sscanf reads it: the fraction and the exponent are not
      looked at. */
  function IntOf(x: string): int
  {
    var n: int := DigitsValue(x[SignLength(x)..DigitStop(x, SignLength(x))]);
    if SignLength(x) == 1 then -n else n
  }

  /** Reading a printed integer gives it back. */
  lemma IntOfText(n: int)
    ensures IntOf(IntText(n)) == n
  {
    var x := IntText(n);
    DecimalShape(if n < 0 then -n else n);
    if n < 0 {
      assert x[1..] == Decimal(-n);
      assert forall k | 1 <= k < |x| :: x[k] == x[1..][k - 1];
      assert x[1..DigitStop(x, 1)] == Decimal(-n);
    } else {
      assert x[0..DigitStop(x, 0)] == x;
    }
  }

  /** The fraction and the exponent of a number are not looked at. */
  lemma IntOfPrefix(n: int, rest: string)
    requires rest != "" ==> !Digit(rest[0])
    ensures IntOf(IntText(n) + rest) == n
  {
    var x, y, s := IntText(n), IntText(n) + rest, SignLength(IntText(n));
    DecimalShape(if n < 0 then -n else n);
    assert forall k | s <= k < |x| :: Digit(x[k]) by {
      if n < 0 {
        assert x[1..] == Decimal(-n);
        assert forall k | 1 <= k < |x| :: x[k] == x[1..][k - 1];
      }
    }
    assert forall k | s <= k < |x| :: y[k] == x[k];
    assert |x| < |y| ==> y[|x|] == rest[0];
    assert DigitStop(y, s) == |x|;
    assert y[s..|x|] == if n < 0 then Decimal(-n) else Decimal(n);
  }

  /** The ten digits, and more of them in front with ten times the weight */
  lemma DecimalDigits(n: nat, d: nat)
    requires d < 10
    ensures |Decimal(d)| == 1 && Decimal(d)[0] as int == '0' as int + d
    ensures n > 0 ==> Decimal(10 * n + d) == Decimal(n) + Decimal(d)
    ensures n > 0 ==> IntText(0 - n) == "-" + Decimal(n)
  {
  }

  /** `s_json_get_int` */
  method GetInt(text: string, pos: nat, fallback: int) returns (v: int)
    requires pos <= |text|
    ensures v == IntAt(text, pos, fallback)
  {
    var t := GetToken(text, pos);
    if t.kind != Number {
      return fallback;
    }
    var str := text[t.start..t.end];
    v := IntOf(str);
  }

  function IntAt(text: string, pos: nat, fallback: int): int
    requires pos <= |text|
  {
    var t := NextToken(text, pos);
    if t.kind == Number then IntOf(text[t.start..t.end]) else fallback
  }

  lemma {:induction false} IntReadsBack(text: string, pos: nat, n: int, fallback: int)
    requires pos <= |text| && After(text, pos, [IntLexeme(n)]).Some?
    ensures IntAt(text, pos, fallback) == n
  {
    AfterOne(text, pos, IntLexeme(n));
    IntOfText(n);
  }
}
