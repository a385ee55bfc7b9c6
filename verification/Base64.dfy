/** Base64 as glib writes and reads it (section 4 of RFC 4648), and the UBase64 form used by
    Mega: the URL-safe alphabet of section 5 of RFC 4648 without padding. */
module Base64 {
  import opened Wrappers
  import opened Bytes

  // ---- Alphabet ----

  function Digit(i: nat): (c: char)
    requires i < 64
  {
    if i < 26 then (i + 65) as char
    else if i < 52 then (i + 71) as char
    else if i < 62 then (i - 4) as char
    else if i == 62 then '+'
    else '/'
  }

  function Rank(c: char): (r: Option<nat>)
    ensures r.Some? ==> r.value < 64
  {
    if 'A' <= c <= 'Z' then Some(c as int - 65)
    else if 'a' <= c <= 'z' then Some(c as int - 71)
    else if '0' <= c <= '9' then Some(c as int + 4)
    else if c == '+' then Some(62)
    else if c == '/' then Some(63)
    else None
  }

  lemma RankOfDigit(i: nat)
    requires i < 64
    ensures Rank(Digit(i)) == Some(i) && Digit(i) != '=' && Digit(i) != '-' && Digit(i) != '_'
  {
  }

  /** Bits of a character in a group: padding counts as zero bits. */
  function Bits(c: char): (r: nat)
    ensures r < 64
  {
    match Rank(c) case Some(v) => v case None => 0
  }

  ghost predicate AllRanked(s: string)
  {
    forall i | 0 <= i < |s| :: Rank(s[i]).Some?
  }

  predicate Significant(c: char)
  {
    Rank(c).Some? || c == '='
  }

  // ---- Standard base64 ----

  function EncodeGroup(a: byte, b: byte, c: byte): (s: string)
    ensures |s| == 4
    ensures AllRanked(s)
  {
    var i0, i1, i2, i3 := a / 4, (a % 4) * 16 + b / 16, (b % 16) * 4 + c / 64, c % 64;
    RankOfDigit(i0); RankOfDigit(i1); RankOfDigit(i2); RankOfDigit(i3);
    [Digit(i0), Digit(i1), Digit(i2), Digit(i3)]
  }

  /** Standard base64 with padding (`g_base64_encode`). */
  function Encode(d: bytes): string
  {
    if |d| == 0 then ""
    else if |d| == 1 then EncodeGroup(d[0], 0, 0)[..2] + Equals(2)
    else if |d| == 2 then EncodeGroup(d[0], d[1], 0)[..3] + Equals(1)
    else EncodeGroup(d[0], d[1], d[2]) + Encode(d[3..])
  }

  function DecodeGroup(s: string): bytes
    requires |s| == 4
  {
    var i0, i1, i2, i3 := Bits(s[0]), Bits(s[1]), Bits(s[2]), Bits(s[3]);
    [i0 * 4 + i1 / 16]
    + (if s[2] == '=' then [] else [(i1 % 16) * 16 + i2 / 4])
    + (if s[3] == '=' then [] else [(i2 % 4) * 64 + i3])
  }

  function DecodeGroups(s: string): bytes
  {
    if |s| < 4 then [] else DecodeGroup(s[..4]) + DecodeGroups(s[4..])
  }

  /** Characters outside the alphabet are skipped. */
  function Sift(s: string): string
  {
    if s == "" then "" else (if Significant(s[0]) then [s[0]] else "") + Sift(s[1..])
  }

  /** Decoding by groups of four significant characters (`g_base64_decode`). */
  function Decode(s: string): bytes
  {
    DecodeGroups(Sift(s))
  }

  lemma {:induction false} SiftSignificant(s: string)
    requires AllSignificant(s)
    ensures Sift(s) == s
  {
    if s != "" {
      SiftSignificant(s[1..]);
      assert s == [s[0]] + s[1..];
    }
  }

  ghost predicate AllSignificant(s: string)
  {
    forall i | 0 <= i < |s| :: Significant(s[i])
  }

  lemma {:induction false} EncodeSignificant(d: bytes)
    ensures |Encode(d)| % 4 == 0
    ensures AllSignificant(Encode(d))
  {
    if |d| == 0 {
    } else if |d| <= 2 {
      SignificantTail(EncodeGroup(d[0], if |d| == 2 then d[1] else 0, 0)[..|d| + 1], 3 - |d|);
    } else {
      EncodeSignificant(d[3..]);
      SignificantGroup(EncodeGroup(d[0], d[1], d[2]), Encode(d[3..]));
    }
  }

  lemma SignificantTail(g: string, pad: nat)
    requires AllRanked(g) && |g| + pad == 4
    ensures AllSignificant(g + Equals(pad)) && |g + Equals(pad)| % 4 == 0
  {
  }

  lemma SignificantGroup(g: string, rest: string)
    requires AllRanked(g) && |g| == 4 && AllSignificant(rest) && |rest| % 4 == 0
    ensures AllSignificant(g + rest) && |g + rest| % 4 == 0
  {
  }

  lemma {:induction false} DecodeGroupsOfEncode(d: bytes)
    ensures DecodeGroups(Encode(d)) == d
  {
    if |d| == 0 {
    } else if |d| <= 2 {
      DecodeTail(d);
      DecodeGroupsStep(Encode(d), "");
      assert Encode(d) + "" == Encode(d);
    } else {
      DecodeGroupsOfEncode(d[3..]);
      DecodeFull(d[0], d[1], d[2]);
      DecodeGroupsStep(EncodeGroup(d[0], d[1], d[2]), Encode(d[3..]));
      assert d == [d[0], d[1], d[2]] + d[3..];
    }
  }

  lemma {:induction false} DecodeGroupsStep(g: string, rest: string)
    requires |g| == 4
    ensures DecodeGroups(g + rest) == DecodeGroup(g) + DecodeGroups(rest)
  {
    assert (g + rest)[..4] == g && (g + rest)[4..] == rest;
  }

  lemma DecodeFull(a: byte, b: byte, c: byte)
    ensures DecodeGroup(EncodeGroup(a, b, c)) == [a, b, c]
  {
    GroupBits(a, b, c);
    SextetsToBytes(a, b, c);
  }

  lemma SextetsToBytes(a: byte, b: byte, c: byte)
    ensures var i0, i1, i2, i3 := a / 4, (a % 4) * 16 + b / 16, (b % 16) * 4 + c / 64, c % 64;
      i0 * 4 + i1 / 16 == a && (i1 % 16) * 16 + i2 / 4 == b && (i2 % 4) * 64 + i3 == c
  {
  }

  lemma GroupBits(a: byte, b: byte, c: byte)
    ensures var g := EncodeGroup(a, b, c);
      Rank(g[0]) == Some(a / 4) && Rank(g[1]) == Some((a % 4) * 16 + b / 16)
      && Rank(g[2]) == Some((b % 16) * 4 + c / 64) && Rank(g[3]) == Some(c % 64)
  {
    RankOfDigit(a / 4);
    RankOfDigit((a % 4) * 16 + b / 16);
    RankOfDigit((b % 16) * 4 + c / 64);
    RankOfDigit(c % 64);
  }

  lemma {:induction false} DecodeTail(d: bytes)
    requires 0 < |d| <= 2
    ensures |Encode(d)| == 4 && DecodeGroup(Encode(d)) == d
  {
    var b := if |d| == 2 then d[1] else 0;
    GroupBits(d[0], b, 0);
    SextetsToBytes(d[0], b, 0);
    var g := EncodeGroup(d[0], b, 0);
    var s := Encode(d);
    assert s[0] == g[0] && s[1] == g[1];
    if |d| == 2 {
      assert s[2] == g[2] && s[3] == '=';
    } else {
      assert s[2] == '=' && s[3] == '=';
    }
  }

  /** Standard base64 round trip. */
  lemma {:induction false} DecodeOfEncode(d: bytes)
    ensures Decode(Encode(d)) == d
  {
    EncodeSignificant(d);
    SiftSignificant(Encode(d));
    DecodeGroupsOfEncode(d);
  }

  // ---- UBase64 ----

  function ToUrl(c: char): char
  {
    if c == '+' then '-' else if c == '/' then '_' else c
  }

  function FromUrl(c: char): char
  {
    if c == '-' then '+' else if c == '_' then '/' else c
  }

  function StripAndTranslate(s: string): string
  {
    if s == "" then "" else (if s[0] == '=' then "" else [ToUrl(s[0])]) + StripAndTranslate(s[1..])
  }

  lemma {:induction false} StripAndTranslateConcat(s: string, t: string)
    ensures StripAndTranslate(s + t) == StripAndTranslate(s) + StripAndTranslate(t)
  {
    if s == "" {
      assert s + t == t;
    } else {
      StripAndTranslateConcat(s[1..], t);
      var st := s + t;
      assert st[0] == s[0] && st[1..] == s[1..] + t;
      var first := if s[0] == '=' then "" else [ToUrl(s[0])];
      Assoc(first, StripAndTranslate(s[1..]), StripAndTranslate(t));
      assert StripAndTranslate(s) == first + StripAndTranslate(s[1..]);
    }
  }

  function Translate(s: string): (r: string)
    ensures |r| == |s| && forall i | 0 <= i < |s| :: r[i] == FromUrl(s[i])
  {
    seq(|s|, i requires 0 <= i < |s| => FromUrl(s[i]))
  }

  function Equals(n: nat): (r: string)
    ensures |r| == n && forall i | 0 <= i < n :: r[i] == '='
  {
    seq(n, _ => '=')
  }

  /** The number of padding characters the decoder appends: (len * 3) & 3. */
  function PaddingFor(len: nat): nat
  {
    (len * 3) % 4
  }

  function UrlEncode(d: bytes): string
  {
    StripAndTranslate(Encode(d))
  }

  function UrlDecode(s: string): bytes
  {
    Decode(Translate(s) + Equals(PaddingFor(|s|)))
  }

  lemma {:induction false} UrlRestores(d: bytes)
    ensures Translate(UrlEncode(d)) + Equals(PaddingFor(|UrlEncode(d)|)) == Encode(d)
  {
    if |d| == 0 {
    } else if |d| <= 2 {
      RestoreTail(EncodeGroup(d[0], if |d| == 2 then d[1] else 0, 0)[..|d| + 1], 3 - |d|);
    } else {
      UrlRestores(d[3..]);
      RestoreFull(EncodeGroup(d[0], d[1], d[2]), Encode(d[3..]));
    }
  }

  lemma {:induction false} RestoreTail(g: string, pad: nat)
    requires 2 <= |g| == 4 - pad && AllRanked(g)
    ensures var u := StripAndTranslate(g + Equals(pad)); Translate(u) + Equals(PaddingFor(|u|)) == g + Equals(pad)
  {
    StripAndTranslateConcat(g, Equals(pad));
    StripShort(g);
    StripEquals(pad);
    assert StripAndTranslate(g) + "" == StripAndTranslate(g);
  }

  lemma {:induction false} StripEquals(pad: nat)
    ensures StripAndTranslate(Equals(pad)) == ""
  {
    if pad > 0 {
      StripEquals(pad - 1);
      assert Equals(pad)[1..] == Equals(pad - 1);
    }
  }

  lemma {:induction false} RestoreFull(g: string, rest: string)
    requires |g| == 4 && AllRanked(g)
    requires var u := StripAndTranslate(rest); Translate(u) + Equals(PaddingFor(|u|)) == rest
    ensures var u := StripAndTranslate(g + rest); Translate(u) + Equals(PaddingFor(|u|)) == g + rest
  {
    StripAndTranslateConcat(g, rest);
    StripShort(g);
    var u, v := StripAndTranslate(g), StripAndTranslate(rest);
    assert Translate(u + v) == Translate(u) + Translate(v);
    assert PaddingFor(|u + v|) == PaddingFor(|v|);
  }

  lemma {:induction false} StripShort(s: string)
    requires AllRanked(s)
    ensures |StripAndTranslate(s)| == |s| && Translate(StripAndTranslate(s)) == s
  {
    if s != "" {
      StripShort(s[1..]);
      assert s == [s[0]] + s[1..];
      assert FromUrl(ToUrl(s[0])) == s[0];
    }
  }

  /** UBase64 decoding undoes UBase64 encoding, whatever the length. */
  lemma UrlDecodeOfEncode(d: bytes)
    ensures UrlDecode(UrlEncode(d)) == d
  {
    UrlRestores(d);
    DecodeOfEncode(d);
  }

  /** The length test of the decoders: n bytes take ceil(4n / 3) characters, none of them
      padding or outside the URL-safe alphabet. */
  lemma {:induction false} UrlEncodeShape(d: bytes)
    ensures |UrlEncode(d)| == (4 * |d| + 2) / 3
    ensures forall c | c in UrlEncode(d) ::
      'A' <= c <= 'Z' || 'a' <= c <= 'z' || '0' <= c <= '9' || c == '-' || c == '_'
  {
    if |d| == 0 {
    } else if |d| <= 2 {
      var g := EncodeGroup(d[0], if |d| == 2 then d[1] else 0, 0)[..|d| + 1];
      StripAlphabet(g);
      StripAndTranslateConcat(g, Equals(3 - |d|));
      StripEquals(3 - |d|);
    } else {
      var g := EncodeGroup(d[0], d[1], d[2]);
      StripAlphabet(g);
      StripAndTranslateConcat(g, Encode(d[3..]));
      UrlEncodeShape(d[3..]);
    }
  }

  lemma {:induction false} StripAlphabet(s: string)
    requires AllRanked(s)
    ensures |StripAndTranslate(s)| == |s|
    ensures forall c | c in StripAndTranslate(s) ::
      'A' <= c <= 'Z' || 'a' <= c <= 'z' || '0' <= c <= '9' || c == '-' || c == '_'
  {
    if s != "" {
      StripAlphabet(s[1..]);
    }
  }

  // ---- The C functions ----

  /** `mega_base64urlencode`: empty data is refused. */
  method Base64UrlEncode(data: bytes) returns (r: Option<string>)
    ensures r == if |data| > 0 then Some(UrlEncode(data)) else None
    ensures r.Some? ==> UrlDecode(r.value) == data
  {
    if |data| == 0 {
      return None;
    }
    var sh := Encode(data);
    var she := "";
    var i := 0;
    while i < |sh|
      invariant 0 <= i <= |sh|
      invariant she == StripAndTranslate(sh[..i])
    {
      StripAndTranslateConcat(sh[..i], [sh[i]]);
      assert sh[..i + 1] == sh[..i] + [sh[i]];
      if sh[i] == '+' {
        she := she + ['-'];
      } else if sh[i] == '/' {
        she := she + ['_'];
      } else if sh[i] != '=' {
        she := she + [sh[i]];
      }
      i := i + 1;
    }
    assert sh[..i] == sh;
    UrlDecodeOfEncode(data);
    r := Some(she);
  }

  /** `mega_base64urldecode`: the copy of the text is rewritten in place and then padded. */
  method Base64UrlDecode(str: string) returns (data: bytes)
    ensures data == UrlDecode(str)
  {
    var s := str;
    var i := 0;
    while i < |s|
      invariant 0 <= i <= |s| == |str|
      invariant forall j | 0 <= j < i :: s[j] == FromUrl(str[j])
      invariant forall j | i <= j < |s| :: s[j] == str[j]
    {
      if s[i] == '-' {
        s := s[i := '+'];
      } else if s[i] == '_' {
        s := s[i := '/'];
      }
      i := i + 1;
    }
    ghost var translated := s;
    assert s == Translate(str);
    var eqs := (|s| * 3) % 4;
    i := 0;
    while i < eqs
      invariant 0 <= i <= eqs
      invariant s == translated + Equals(i)
    {
      s := s + ['='];
      i := i + 1;
    }
    data := Decode(s);
  }

  // ---- The text of UBase64, character by character ----

  /** A byte of the data, and zero behind its end */
  function ByteOrZero(d: bytes, i: nat): byte
  {
    if i < |d| then d[i] else 0
  }

  /** The digits of the URL alphabet (table 2 of RFC 4648) */
  predicate IsUrlDigit(c: char, v: int)
  {
    || ('A' <= c <= 'Z' && v == c as int - 'A' as int)
    || ('a' <= c <= 'z' && v == 26 + c as int - 'a' as int)
    || ('0' <= c <= '9' && v == 52 + c as int - '0' as int)
    || (c == '-' && v == 62) || (c == '_' && v == 63)
  }

  /** How a digit is written, and how it is read back */
  lemma UrlAlphabet(c: char, v: nat)
    requires v < 64
    ensures ToUrl(Digit(v)) == c <==> IsUrlDigit(c, v)
    ensures IsUrlDigit(c, v) ==> Bits(FromUrl(c)) == v
  {
  }

  /** Six bits of the data, from bit 6k on */
  function Sextet(d: bytes, k: nat): (v: nat)
    ensures v < 64
  {
    var j := k / 4 * 3;
    if k % 4 == 0 then ByteOrZero(d, j) / 4
    else if k % 4 == 1 then ByteOrZero(d, j) % 4 * 16 + ByteOrZero(d, j + 1) / 16
    else if k % 4 == 2 then ByteOrZero(d, j + 1) % 16 * 4 + ByteOrZero(d, j + 2) / 64
    else ByteOrZero(d, j + 2) % 64
  }

  /** The sextets are the digits of three bytes in base 64. */
  lemma SextetsWeigh(d: bytes, j: nat)
    ensures ((Sextet(d, 4 * j) * 64 + Sextet(d, 4 * j + 1)) * 64 + Sextet(d, 4 * j + 2)) * 64 + Sextet(d, 4 * j + 3)
      == (ByteOrZero(d, 3 * j) * 256 + ByteOrZero(d, 3 * j + 1)) * 256 + ByteOrZero(d, 3 * j + 2)
  {
    var a, b, c := ByteOrZero(d, 3 * j), ByteOrZero(d, 3 * j + 1), ByteOrZero(d, 3 * j + 2);
    assert 4 * j / 4 * 3 == 3 * j && (4 * j + 1) / 4 * 3 == 3 * j;
    assert (4 * j + 2) / 4 * 3 == 3 * j && (4 * j + 3) / 4 * 3 == 3 * j;
    assert (4 * j) % 4 == 0 && (4 * j + 1) % 4 == 1 && (4 * j + 2) % 4 == 2 && (4 * j + 3) % 4 == 3;
  }

  /** Every character of the text is the digit of its six bits. */
  lemma {:induction false} UrlEncodeAt(d: bytes, k: nat)
    requires k < |UrlEncode(d)|
    ensures IsUrlDigit(UrlEncode(d)[k], Sextet(d, k))
  {
    if |d| <= 2 {
      var g := EncodeGroup(d[0], if |d| == 2 then d[1] else 0, 0);
      TailText(d, g);
      StripShort(g[..|d| + 1]);
      StripAt(g[..|d| + 1], k);
      GroupAt(d, g, k);
    } else {
      var g := EncodeGroup(d[0], d[1], d[2]);
      StripAndTranslateConcat(g, Encode(d[3..]));
      StripShort(g);
      if k < 4 {
        StripAt(g, k);
        GroupAt(d, g, k);
      } else {
        UrlEncodeAt(d[3..], k - 4);
        SextetTail(d, k);
      }
    }
  }

  lemma TailText(d: bytes, g: string)
    requires 1 <= |d| <= 2 && g == EncodeGroup(d[0], if |d| == 2 then d[1] else 0, 0)
    ensures UrlEncode(d) == StripAndTranslate(g[..|d| + 1])
  {
    StripAndTranslateConcat(g[..|d| + 1], Equals(3 - |d|));
    StripEquals(3 - |d|);
  }

  lemma SextetTail(d: bytes, k: nat)
    requires |d| >= 3 && k >= 4
    ensures Sextet(d, k) == Sextet(d[3..], k - 4)
  {
    var j := k / 4 * 3;
    assert (k - 4) / 4 * 3 == j - 3;
    assert ByteOrZero(d, j) == ByteOrZero(d[3..], j - 3);
    assert ByteOrZero(d, j + 1) == ByteOrZero(d[3..], j - 2);
    assert ByteOrZero(d, j + 2) == ByteOrZero(d[3..], j - 1);
  }

  lemma {:induction false} StripAt(s: string, k: nat)
    requires AllRanked(s) && k < |s|
    ensures k < |StripAndTranslate(s)| && StripAndTranslate(s)[k] == ToUrl(s[k])
  {
    if k > 0 {
      StripAt(s[1..], k - 1);
    }
  }

  lemma GroupAt(d: bytes, g: string, k: nat)
    requires k < 4 && g == EncodeGroup(ByteOrZero(d, 0), ByteOrZero(d, 1), ByteOrZero(d, 2))
    ensures IsUrlDigit(ToUrl(g[k]), Sextet(d, k))
  {
    UrlAlphabet(ToUrl(Digit(Sextet(d, k))), Sextet(d, k));
  }

  /** Standard Base64 (table 1 of RFC 4648) has two other digits, and padding up to whole groups. */
  lemma {:induction false} EncodeText(d: bytes)
    ensures var u := UrlEncode(d);
      && Encode(d) == Translate(u) + Equals((3 - |d| % 3) % 3)
      && forall i | 0 <= i < |u| ::
           Translate(u)[i] == if u[i] == '-' then '+' else if u[i] == '_' then '/' else u[i]
  {
    UrlRestores(d);
    UrlEncodeShape(d);
    PaddingCount(|d|);
  }

  lemma PaddingCount(n: nat)
    ensures PaddingFor((4 * n + 2) / 3) == (3 - n % 3) % 3
  {
    var q, r := n / 3, n % 3;
    assert n == 3 * q + r;
    assert (4 * n + 2) / 3 == 4 * q + (4 * r + 2) / 3;
  }
}
