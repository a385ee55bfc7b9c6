/** What filling in a template gives: its tokens, with each bare identifier as a string and each hole as its
    argument. */
module JsonTemplate {
  import opened Wrappers
  import opened JsonLexer
  import opened JsonTokens
  import opened JsonGrammar
  import opened JsonStrings
  import opened JsonNumbers
  import opened JsonData
  import opened JsonRuns
  import opened JsonBuild

  // ---- Templates ----

  datatype Part = Lit(x: Lexeme) | Name(id: string) | Slot(letter: char, nullable: bool)

  /** Parts with white space before each, and white space at the end */
  datatype Template = Nil(tail: string) | More(w: string, p: Part, rest: Template)

  predicate IsIdent(x: string)
  {
    x != "" && IdentStart(x[0]) && forall i | 0 <= i < |x| :: IdentChar(x[i])
  }

  /** An identifier with which no token begins: not one that starts with true, false, null, or a minus sign and a
      digit */
  predicate PlainName(id: string)
  {
    && IsIdent(id) && !("true" <= id) && !("false" <= id) && !("null" <= id)
    && !(|id| > 1 && id[0] == '-' && Digit(id[1]))
  }

  predicate GoodPart(p: Part)
  {
    match p
    case Lit(x) => Genuine(x)
    case Name(id) => PlainName(id)
    case Slot(letter, _) => HoleLetter(letter)
  }

  /** Not a bracket, a colon or a comma */
  predicate Bare(p: Part)
  {
    !p.Lit? || ScalarKind(p.x.kind)
  }

  function PartText(p: Part): string
  {
    match p
    case Lit(x) => x.text
    case Name(id) => id
    case Slot(letter, nullable) => if nullable then ['%', '?', letter] else ['%', letter]
  }

  function TemplateText(t: Template): string
  {
    match t
    case Nil(tail) => tail
    case More(w, p, rest) => w + (PartText(p) + TemplateText(rest))
  }

  /** Between two parts that are not brackets, colons or commas there is one that is. */
  predicate GoodTemplate(t: Template)
  {
    match t
    case Nil(tail) => AllWs(tail)
    case More(w, p, rest) =>
      AllWs(w) && GoodPart(p) && !(Bare(p) && rest.More? && Bare(rest.p)) && GoodTemplate(rest)
  }

  // ---- The tokens of a filled in template ----

  /** The value at the front of a text */
  ghost function LeadingValue(text: string): (v: Value)
    requires ValueEnd(text, 0).Some?
    ensures Spells(text, 0, v, ValueEnd(text, 0).value)
  {
    ValidExactly(text, 0, ValueEnd(text, 0).value);
    var v :| Spells(text, 0, v, ValueEnd(text, 0).value);
    v
  }

  ghost function SlotTokens(letter: char, nullable: bool, a: Arg): seq<Lexeme>
  {
    if nullable && a.isNull then [WordLexeme(Null)]
    else if letter == 's' || letter == 'S'
      then [if a.str.None? then WordLexeme(Null) else StringLexeme(CString(a.str.value))]
    else if letter == 'j' || letter == 'J' then
      if a.str.None? || ValueEnd(CString(a.str.value), 0).None? then [WordLexeme(Null)]
      else Flat(LeadingValue(CString(a.str.value)))
    else if letter == 'i' then [IntLexeme(a.int64)]
    else if letter == 'd' then [Lexeme(Number, a.double)]
    else [WordLexeme(if a.flag then True else False)]
  }

  function NameLexeme(id: string): Lexeme
  {
    Lexeme(NoescString, "\"" + id + "\"")
  }

  ghost function PartTokens(p: Part, a: Arg): seq<Lexeme>
  {
    match p
    case Lit(x) => [x]
    case Name(id) => [NameLexeme(id)]
    case Slot(letter, nullable) => SlotTokens(letter, nullable, a)
  }

  function NextArg(p: Part, k: nat): nat
  {
    if p.Slot? then k + 1 else k
  }

  ghost function TemplateTokens(t: Template, args: nat -> Arg, k: nat): seq<Lexeme>
  {
    match t
    case Nil(_) => []
    case More(_, p, rest) => PartTokens(p, args(k)) + TemplateTokens(rest, args, NextArg(p, k))
  }

  /** A double is printed as a number. */
  predicate GoodArgs(t: Template, args: nat -> Arg, k: nat)
  {
    match t
    case Nil(_) => true
    case More(_, p, rest) =>
      && (p.Slot? && p.letter == 'd' ==> Genuine(Lexeme(Number, args(k).double)))
      && GoodArgs(rest, args, NextArg(p, k))
  }

  // ---- Texts in which some tokens are spread out ----

  ghost predicate SpreadBy(out: string, xs: seq<Lexeme>, us: seq<string>, tail: string)
  {
    |us| == |xs| && AllBlank(us) && AllWs(tail) && out == Spread(xs, us) + tail
  }

  ghost predicate SpreadOf(out: string, xs: seq<Lexeme>)
  {
    exists us, tail :: SpreadBy(out, xs, us, tail)
  }

  lemma SpreadNothing()
    ensures SpreadOf("", [])
  {
    assert SpreadBy("", [], [], "");
  }

  lemma {:induction false} SpreadAfterSpace(w: string, out: string, xs: seq<Lexeme>)
    requires AllWs(w) && SpreadOf(out, xs)
    ensures SpreadOf(w + out, xs)
  {
    var us, tail :| SpreadBy(out, xs, us, tail);
    if xs == [] {
      assert out == tail;
      assert SpreadBy(w + out, xs, [], w + tail);
    } else {
      var vs := [w + us[0]] + us[1..];
      SpreadFirstSpace(w, xs, us, vs);
      Assoc(w, Spread(xs, us), tail);
      assert SpreadBy(w + out, xs, vs, tail);
    }
  }

  lemma {:induction false} SpreadFirstSpace(w: string, xs: seq<Lexeme>, us: seq<string>, vs: seq<string>)
    requires |us| == |xs| && xs != [] && AllBlank(us) && AllWs(w) && vs == [w + us[0]] + us[1..]
    ensures |vs| == |xs| && AllBlank(vs) && Spread(xs, vs) == w + Spread(xs, us)
  {
    assert vs[1..] == us[1..];
    var rest := Spread(xs[1..], us[1..]);
    Assoc(w, us[0], xs[0].text);
    Assoc(w, us[0] + xs[0].text, rest);
  }

  lemma {:induction false} SpreadJoin(a: string, xs: seq<Lexeme>, us: seq<string>, out: string, ys: seq<Lexeme>)
    requires |us| == |xs| && AllBlank(us) && a == Spread(xs, us) && SpreadOf(out, ys)
    ensures SpreadOf(a + out, xs + ys)
  {
    var vs, tail :| SpreadBy(out, ys, vs, tail);
    SpreadAppend(xs, us, ys, vs);
    Assoc(a, Spread(ys, vs), tail);
    assert SpreadBy(a + out, xs + ys, us + vs, tail);
  }

  lemma {:induction false} SpreadOne(x: Lexeme)
    ensures Spread([x], [""]) == x.text
  {
    assert [x][1..] == [] && [""][1..] == [];
    assert "" + x.text + "" == x.text;
  }

  lemma {:induction false} SpreadToken(x: Lexeme, out: string, ys: seq<Lexeme>)
    requires SpreadOf(out, ys)
    ensures SpreadOf(x.text + out, [x] + ys)
  {
    SpreadOne(x);
    SpreadJoin(x.text, [x], [""], out, ys);
  }

  /** Tokens spread out over a whole text are the tokens of the text. */
  lemma {:induction false} SpreadOfReads(out: string, xs: seq<Lexeme>) returns (end: nat)
    requires SpreadOf(out, xs) && AllGenuine(xs) && Apart(xs)
    ensures After(out, 0, xs) == Some(end) && NextToken(out, end).kind == End
  {
    var us, tail :| SpreadBy(out, xs, us, tail);
    end := |Spread(xs, us)|;
    assert out[0..end] == Spread(xs, us) && out[end..] == tail;
    SpaceToEnd(out, end);
    assert end < |out| ==> out[end] == tail[0];
    SpreadReads(out, 0, xs, us);
  }

  lemma {:induction false} SpaceToEnd(text: string, p: nat)
    requires p <= |text| && AllWs(text[p..])
    ensures NextToken(text, p).kind == End
  {
    EndOfText(text);
    if p < |text| {
      SpaceScanned(text, p, text[p..], |text|);
      SpaceSkipped(text, p, |text|);
    }
  }

  // ---- Runs at the front of a template ----

  /** The tokens and the white space before the first identifier or hole, or before the end */
  function RunText(t: Template): string
  {
    match t
    case Nil(tail) => tail
    case More(w, p, rest) => if p.Lit? then w + (p.x.text + RunText(rest)) else w
  }

  /** What is left after them */
  function AfterRun(t: Template): (r: Template)
    ensures r == Nil("") || (r.More? && r.w == "" && !r.p.Lit?)
  {
    match t
    case Nil(_) => Nil("")
    case More(_, p, rest) => if p.Lit? then AfterRun(rest) else More("", p, rest)
  }

  lemma {:induction false} RunSplits(t: Template)
    requires GoodTemplate(t)
    ensures TemplateText(t) == RunText(t) + TemplateText(AfterRun(t)) && GoodTemplate(AfterRun(t))
    decreases t
  {
    var after := TemplateText(AfterRun(t));
    match t
    case Nil(tail) => assert tail + "" == tail;
    case More(w, p, rest) =>
      if p.Lit? {
        RunSplits(rest);
        Assoc(p.x.text, RunText(rest), after);
        Assoc(w, p.x.text + RunText(rest), after);
      } else {
        assert "" + (PartText(p) + TemplateText(rest)) == PartText(p) + TemplateText(rest);
      }
  }

  lemma {:induction false} SpacePiece(w: string) returns (xs: seq<Lexeme>)
    requires AllWs(w)
    ensures AllPieces(xs, true) && Concat(xs) == w
  {
    xs := [];
    if w != "" {
      xs := [Lexeme(Invalid, w)];
      assert xs[1..] == [] && w + "" == w;
    }
  }

  lemma {:induction false} RunPieces(t: Template) returns (xs: seq<Lexeme>)
    requires GoodTemplate(t)
    ensures AllPieces(xs, true) && Concat(xs) == RunText(t)
    decreases t
  {
    match t
    case Nil(tail) => xs := SpacePiece(tail);
    case More(w, p, rest) =>
      var space := SpacePiece(w);
      xs := space;
      if p.Lit? {
        var more := RunPieces(rest);
        assert ([p.x] + more)[1..] == more;
        ConcatAppend(space, [p.x] + more);
        xs := space + ([p.x] + more);
      }
  }

  // ---- No run goes on ----

  /** No run begins with this text or goes on into it. */
  predicate Blocks(rest: string)
  {
    rest != "" && (rest[0] == '\0' || rest[0] == '%' || StartsWithName(rest))
  }

  predicate NameThen(rest: string, n: nat)
  {
    0 < n < |rest| && PlainName(rest[..n]) && !IdentChar(rest[n])
  }

  /** An identifier that no token begins with, and another character after it */
  predicate StartsWithName(rest: string)
  {
    exists n | 0 < n < |rest| :: NameThen(rest, n)
  }

  lemma {:induction false} FirstOfToken(x: Lexeme)
    requires Genuine(x)
    ensures x.text != "" && x.text[0] != '\0' && x.text[0] != '%'
    ensures IdentStart(x.text[0]) ==>
      x.text in {"true", "false", "null"} || (|x.text| > 1 && x.text[0] == '-' && Digit(x.text[1]))
  {
    NotNul(x);
    GenuineByRules(x);
    if x.kind == Number {
      NumberFirst(x);
    }
  }

  lemma {:induction false} NumberFirst(x: Lexeme)
    requires Genuine(x) && x.kind == Number
    ensures x.text != "" && x.text[0] != '%'
      && (IdentStart(x.text[0]) ==> |x.text| > 1 && x.text[0] == '-' && Digit(x.text[1]))
  {
    NumberChars(x);
    FirstOfNumber(x);
    var y := x.text[1..];
    assert Run(Start, x.text) == Run(FirstStep(x.text[0]), y);
    if x.text[0] == '-' {
      if y != "" && !Digit(y[0]) {
        RunDead(y[1..]);
      }
    }
  }

  /** No token begins with such an identifier. */
  lemma NameNoToken(rest: string, n: nat, x: string)
    requires NameThen(rest, n) && (x == "true" || x == "false" || x == "null")
    ensures !(x <= rest)
  {
    assert forall i | 0 <= i < |x| :: IdentChar(x[i]);
    assert |x| <= n ==> (x <= rest <==> x <= rest[..n]);
  }

  lemma NameNoNumber(rest: string, n: nat)
    requires NameThen(rest, n) && |rest| > 1 && rest[0] == '-'
    ensures !Digit(rest[1])
  {
    assert rest[..n][0] == rest[0];
    assert n > 1 ==> rest[..n][1] == rest[1];
  }

  /** No piece of a run begins in front of such a text. */
  lemma {:induction false} NoPieceBlocked(x: Lexeme, rest: string)
    requires Piece(x, true) && Blocks(rest)
    ensures !(x.text <= rest)
  {
    PieceAccepted(x, true);
    if x.text <= rest {
      assert x.text[0] == rest[0];
      if Genuine(x) {
        FirstOfToken(x);
      }
      var n :| 0 < n < |rest| && NameThen(rest, n);
      assert rest[..n][0] == rest[0];
      if |x.text| > 1 && rest[0] == '-' {
        assert rest[1] == x.text[1];
        NameNoNumber(rest, n);
      } else {
        NameNoToken(rest, n, x.text);
      }
    }
  }

  /** Pieces that cover white space and more end with the white space. */
  lemma {:induction false} AlignSpace(w: string, rest: string, ps: seq<Lexeme>) returns (k: nat)
    requires AllWs(w) && AllPieces(ps, true) && Concat(ps) == w + rest && rest != "" && !WsChar(rest[0])
    ensures k <= |ps| && Concat(ps[k..]) == rest
    decreases |w|
  {
    if w == "" {
      k := 0;
      assert ps[0..] == ps && w + rest == rest;
    } else {
      assert (w + rest)[0] == w[0];
      var p := ps[0];
      PieceAccepted(p, true);
      assert p.text[0] == w[0];
      SpaceFirstPiece(p);
      SpaceWithin(p.text, w, rest, Concat(ps[1..]));
      TileStep(w, rest, p.text, Concat(ps[1..]));
      k := AlignSpace(w[|p.text|..], rest, ps[1..]);
      k := k + 1;
      assert ps[1..][k - 1..] == ps[k..];
    }
  }

  lemma {:induction false} SpaceFirstPiece(p: Lexeme)
    requires Piece(p, true) && p.text != "" && WsChar(p.text[0])
    ensures AllWs(p.text)
  {
    if Genuine(p) {
      GenuineStarts(p);
    }
  }

  lemma SpaceWithin(p: string, w: string, rest: string, more: string)
    requires AllWs(p) && p + more == w + rest && rest != "" && !WsChar(rest[0])
    ensures |p| <= |w|
  {
    assert (w + rest)[|w|] == rest[0];
    assert forall i | 0 <= i < |p| :: (p + more)[i] == p[i];
  }

  /** Pieces that cover a token and what can follow it end with the token. */
  lemma {:induction false} AlignToken(x: Lexeme, rest: string, ps: seq<Lexeme>) returns (k: nat)
    requires Genuine(x) && AllPieces(ps, true) && Concat(ps) == x.text + rest
    requires rest != "" && (x.kind == Number ==> !NumeralChar(rest[0]))
    ensures k <= |ps| && Concat(ps[k..]) == rest
  {
    if x.kind == Number {
      NumberChars(x);
      k := Tiles(x.text, rest, ps, true);
    } else {
      GenuineStarts(x);
      assert (x.text + rest)[0] == x.text[0];
      var p := ps[0];
      PieceAccepted(p, true);
      assert p.text[0] == x.text[0];
      HeadsEqual(x, p, rest, Concat(ps[1..]));
      SameRest(x.text, rest, Concat(ps[1..]));
      k := 1;
    }
  }

  /** What comes after a part that is not a bracket, a colon or a comma */
  predicate EndsBare(c: char)
  {
    !NumeralChar(c) && !IdentChar(c)
  }

  /** The first character of the rest of a template, with some text after it */
  lemma {:induction false} AfterBare(t: Template, rest: string)
    requires GoodTemplate(t) && (t.More? ==> !Bare(t.p)) && rest != "" && (AfterRun(t).Nil? ==> EndsBare(rest[0]))
    ensures var all := RunText(t) + rest; all != "" && EndsBare(all[0])
  {
    var all := RunText(t) + rest;
    match t
    case Nil(tail) =>
      assert all[0] == if tail == "" then rest[0] else tail[0];
    case More(w, p, u) =>
      StructuralStart(p.x);
      FirstOfToken(p.x);
      StructuralNoIdent(p.x);
      assert all[0] == if w == "" then p.x.text[0] else w[0];
  }

  lemma {:induction false} StructuralNoIdent(x: Lexeme)
    requires Genuine(x) && !ScalarKind(x.kind) && x.text != ""
    ensures !IdentChar(x.text[0])
  {
    GenuineByRules(x);
  }

  /** Pieces that cover the front of a template and more end where it ends. */
  lemma {:induction false} Align(t: Template, rest: string, ps: seq<Lexeme>) returns (k: nat)
    requires GoodTemplate(t) && AllPieces(ps, true) && Concat(ps) == RunText(t) + rest
    requires rest != "" && !WsChar(rest[0]) && (AfterRun(t).Nil? ==> EndsBare(rest[0]))
    ensures k <= |ps| && Concat(ps[k..]) == rest
    decreases t, 0
  {
    match t
    case Nil(tail) => k := AlignSpace(tail, rest, ps);
    case More(w, p, u) =>
      if p.Lit? {
        k := AlignMore(w, p.x, u, rest, ps);
      } else {
        k := AlignSpace(w, rest, ps);
      }
  }

  lemma DropTwice(ps: seq<Lexeme>, i: nat, j: nat)
    requires i <= |ps| && j <= |ps| - i
    ensures ps[i..][j..] == ps[i + j..]
  {
  }

  /** White space and a token */
  lemma {:induction false} AlignBoth(w: string, x: Lexeme, after: string, ps: seq<Lexeme>) returns (k: nat)
    requires AllWs(w) && Genuine(x) && AllPieces(ps, true) && Concat(ps) == w + (x.text + after)
    requires after != "" && (x.kind == Number ==> !NumeralChar(after[0]))
    ensures k <= |ps| && Concat(ps[k..]) == after
  {
    GenuineStarts(x);
    assert (x.text + after)[0] == x.text[0];
    var i := AlignSpace(w, x.text + after, ps);
    var j := AlignToken(x, after, ps[i..]);
    DropTwice(ps, i, j);
    k := i + j;
  }

  lemma {:induction false} AlignMore(w: string, x: Lexeme, u: Template, rest: string, ps: seq<Lexeme>) returns (k: nat)
    requires AllWs(w) && Genuine(x) && GoodTemplate(u) && (ScalarKind(x.kind) && u.More? ==> !Bare(u.p))
    requires AllPieces(ps, true) && Concat(ps) == (w + (x.text + RunText(u))) + rest
    requires rest != "" && !WsChar(rest[0]) && (AfterRun(u).Nil? ==> EndsBare(rest[0]))
    ensures k <= |ps| && Concat(ps[k..]) == rest
    decreases u, 1
  {
    var after := RunText(u) + rest;
    Assoc(w, x.text + RunText(u), rest);
    Assoc(x.text, RunText(u), rest);
    assert x.kind == Number ==> !NumeralChar(after[0]) by {
      if x.kind == Number {
        AfterBare(u, rest);
      }
    }
    var i := AlignBoth(w, x, after, ps);
    var j := Align(u, rest, ps[i..]);
    DropTwice(ps, i, j);
    k := i + j;
  }

  // ---- What comes next in a template ----

  /** A run at the front of a template is not longer than that, whatever comes after the template's own run. */
  lemma {:induction false} NotLonger(t: Template, z: string, s: nat, e: nat, r: nat)
    requires GoodTemplate(t) && s <= e < r <= |z| && z[s..e] == RunText(t)
    requires Blocks(z[e..]) && (AfterRun(t).Nil? ==> z[e] == '\0')
    ensures !IsRun(z[s..r], true)
  {
    var rest := z[e..r];
    if IsRun(z[s..r], true) {
      var ps :| Covers(ps, z[s..r], true);
      assert z[s..r] == RunText(t) + rest;
      assert rest[0] == z[e] == z[e..][0];
      BlocksNoSpace(z[e..]);
      var k := Align(t, rest, ps);
      PieceAtFront(ps[k..], rest, z[e..]);
    }
  }

  lemma {:induction false} BlocksNoSpace(rest: string)
    requires Blocks(rest)
    ensures !WsChar(rest[0])
  {
    if rest[0] != '\0' && rest[0] != '%' {
      var n :| 0 < n < |rest| && NameThen(rest, n);
      assert rest[..n][0] == rest[0];
    }
  }

  lemma {:induction false} PieceAtFront(ps: seq<Lexeme>, rest: string, whole: string)
    requires AllPieces(ps, true) && Concat(ps) == rest && rest != "" && rest <= whole
    ensures !Blocks(whole)
  {
    assert ps != [] && ps[0].text <= rest;
    assert ps[0].text <= whole;
    if Blocks(whole) {
      NoPieceBlocked(ps[0], whole);
    }
  }

  /** The run at the front of a template */
  lemma {:induction false} RunFound(text: string, s: nat, e: nat, t: Template)
    requires GoodTemplate(t) && s < e <= |text| && text[s..e] == RunText(t)
    requires Blocks(Z(text)[e..]) && (AfterRun(t).Nil? ==> e == |text|)
    ensures RunEnd(Z(text), s, true) == Some(e)
  {
    var z := Z(text);
    assert z[s..e] == RunText(t);
    var ps := RunPieces(t);
    assert Covers(ps, z[s..e], true);
    forall r | e < r <= |z| ensures !IsRun(z[s..r], true) {
      NotLonger(t, z, s, e, r);
    }
    RunEndLongest(z, s, true);
    LongestIs(z, s, e, RunEnd(z, s, true), true);
  }

  /** No run begins at an identifier. */
  lemma {:induction false} NoRunFound(text: string, s: nat)
    requires s <= |text| && Blocks(Z(text)[s..])
    ensures RunEnd(Z(text), s, true).None?
  {
    var z := Z(text);
    RunEndLongest(z, s, true);
    var r := RunEnd(z, s, true);
    if r.Some? {
      var ps :| Covers(ps, z[s..r.value], true);
      PieceAtFront(ps, z[s..r.value], z[s..]);
    }
  }

  /** The text from a position on is that of a template. */
  predicate Holds(text: string, s: nat, t: Template)
  {
    s <= |text| && text[s..] == TemplateText(t)
  }

  /** The text after a run blocks it. */
  lemma {:induction false} TemplateBlocks(text: string, s: nat, t: Template)
    requires Holds(text, s, t) && GoodTemplate(t) && (t == Nil("") || (t.More? && t.w == "" && !t.p.Lit?))
    ensures Blocks(Z(text)[s..]) && (t.Nil? ==> s == |text|)
  {
    var rest := Z(text)[s..];
    assert rest == text[s..] + "\0";
    if t.More? && t.p.Name? {
      NameFollowed(t, rest);
    } else if t.More? {
      assert rest[0] == text[s..][0] == PartText(t.p)[0];
    }
  }

  /** What comes after an identifier in a template does not belong to it. */
  lemma {:induction false} NameFollowed(t: Template, rest: string)
    requires GoodTemplate(t) && t.More? && t.w == "" && t.p.Name? && rest == TemplateText(t) + "\0"
    ensures NameThen(rest, |t.p.id|) && Blocks(rest)
  {
    var id, more := t.p.id, TemplateText(t.rest) + "\0";
    assert TemplateText(t) == "" + (id + TemplateText(t.rest)) == id + TemplateText(t.rest);
    Assoc(id, TemplateText(t.rest), "\0");
    FirstAfterName(t.rest, more);
    assert rest == id + more && rest[..|id|] == id && rest[|id|] == more[0];
    assert NameThen(rest, |id|);
  }

  lemma {:induction false} FirstAfterName(u: Template, more: string)
    requires GoodTemplate(u) && (u.More? ==> !Bare(u.p)) && more == TemplateText(u) + "\0"
    ensures more != "" && !IdentChar(more[0])
  {
    match u
    case Nil(tail) => assert more[0] == if tail == "" then '\0' else tail[0];
    case More(w, p, v) =>
      StructuralStart(p.x);
      StructuralNoIdent(p.x);
      assert more[0] == if w == "" then p.x.text[0] else w[0];
  }

  /** An identifier at the front of the text ends within the first token. */
  lemma {:induction false} IdentWithin(text: string, s: nat, x: Lexeme, u: Template)
    requires Genuine(x) && GoodTemplate(u) && (ScalarKind(x.kind) && u.More? ==> !Bare(u.p))
    requires s <= |text| && text[s..] == x.text + TemplateText(u)
    ensures IdentEnd(text, s) <= s + |x.text|
  {
    var n := s + |x.text|;
    if IdentStart(At(text, s)) {
      GenuineStarts(x);
      assert text[s] == text[s..][0] == x.text[0];
      GenuineByRules(x);
      StopsAt(text, s, n) by {
        var more := TemplateText(u) + "\0";
        FirstAfterName(u, more);
        assert At(text, n) == more[0] by {
          assert n < |text| ==> text[n] == text[s..][|x.text|] == TemplateText(u)[0];
        }
      }
    }
  }

  lemma {:induction false} StopsAt(text: string, i: nat, n: nat)
    requires i <= n <= |text| && !IdentChar(At(text, n))
    ensures IdentStop(text, i) <= n
    decreases n - i
  {
    if i < n && IdentChar(text[i]) {
      StopsAt(text, i + 1, n);
    }
  }

  /** The run at the front is the next chunk. */
  lemma {:induction false} CopyChunk(text: string, s: nat, t: Template, e: nat)
    requires Holds(text, s, t) && GoodTemplate(t) && RunText(t) != "" && e == s + |RunText(t)|
    ensures e <= |text| && text[s..e] == RunText(t) && Holds(text, e, AfterRun(t)) && ChunkAt(text, s) == Copy(e)
  {
    RunSplits(t);
    assert text[s..e] == text[s..][..|RunText(t)|] == RunText(t);
    assert text[e..] == text[s..][|RunText(t)|..] == TemplateText(AfterRun(t));
    TemplateBlocks(text, e, AfterRun(t));
    RunFound(text, s, e, t);
    FirstOfRun(text, s, t, e);
  }

  lemma {:induction false} FirstOfRun(text: string, s: nat, t: Template, e: nat)
    requires Holds(text, s, t) && GoodTemplate(t) && RunText(t) != "" && e == s + |RunText(t)| && e <= |text|
    ensures At(text, s) != '\0' && At(text, s) != '%' && IdentEnd(text, s) <= e
  {
    assert text[s] == text[s..][0];
    match t
    case Nil(tail) =>
    case More(w, p, rest) =>
      if w == "" {
        assert "" + (PartText(p) + TemplateText(rest)) == PartText(p) + TemplateText(rest);
        FirstOfToken(p.x);
        IdentWithin(text, s, p.x, rest);
      }
  }

  // ---- Filling in ----

  lemma {:induction false} IdentAll(text: string, i: nat, n: nat)
    requires i <= n <= |text| && (forall k | i <= k < n :: IdentChar(text[k])) && !IdentChar(At(text, n))
    ensures IdentStop(text, i) == n
  {
    var stop := IdentStop(text, i);
    assert !(stop < n) && !(n < stop);
  }

  lemma {:induction false} IdentEndsAt(text: string, s: nat, n: nat, id: string)
    requires s <= n <= |text| && text[s..n] == id && IsIdent(id) && !IdentChar(At(text, n))
    ensures At(text, s) == id[0] && IdentEnd(text, s) == n
  {
    assert forall k | s <= k < n :: text[k] == id[k - s];
    IdentAll(text, s, n);
  }

  lemma NameSplits(text: string, s: nat, id: string, rest: Template)
    requires Holds(text, s, More("", Name(id), rest)) && GoodTemplate(rest) && (rest.More? ==> !Bare(rest.p))
    ensures s + |id| <= |text| && text[s..s + |id|] == id && Holds(text, s + |id|, rest)
      && !IdentChar(At(text, s + |id|))
  {
    var n := s + |id|;
    assert TemplateText(More("", Name(id), rest)) == id + TemplateText(rest);
    TextSplits(text, s, id, TemplateText(rest));
    FirstAfterName(rest, TemplateText(rest) + "\0");
    assert At(text, n) == (text[n..] + "\0")[0];
  }

  lemma TextSplits(text: string, s: nat, a: string, b: string)
    requires s <= |text| && text[s..] == a + b
    ensures s + |a| <= |text| && text[s..s + |a|] == a && text[s + |a|..] == b
  {
    assert text[s..s + |a|] == text[s..][..|a|];
    assert text[s + |a|..] == text[s..][|a|..];
  }

  /** An identifier at the front is the next chunk. */
  lemma {:induction false} IdentChunk(text: string, s: nat, id: string, rest: Template)
    requires Holds(text, s, More("", Name(id), rest)) && GoodTemplate(More("", Name(id), rest))
    ensures s + |id| <= |text| && text[s..s + |id|] == id && Holds(text, s + |id|, rest)
    ensures ChunkAt(text, s) == Ident(s + |id|)
  {
    NameSplits(text, s, id, rest);
    IdentEndsAt(text, s, s + |id|, id);
    TemplateBlocks(text, s, More("", Name(id), rest));
    NoRunFound(text, s);
  }

  /** A hole at the front is the next chunk. */
  lemma SlotChunk(text: string, s: nat, letter: char, nullable: bool, rest: Template)
    requires Holds(text, s, More("", Slot(letter, nullable), rest)) && HoleLetter(letter)
    ensures var n := s + if nullable then 3 else 2;
      n <= |text| && Holds(text, n, rest) && ChunkAt(text, s) == Hole(letter, nullable, n)
  {
    var p, n := PartText(Slot(letter, nullable)), s + if nullable then 3 else 2;
    assert text[s..] == p + TemplateText(rest);
    assert text[n..] == text[s..][|p|..] == TemplateText(rest);
    assert text[s] == text[s..][0] && text[s + 1] == text[s..][1];
    assert nullable ==> text[s + 2] == text[s..][2];
  }

  /** The tokens an argument gives stand in its text. */
  lemma {:induction false} SlotSpread(letter: char, nullable: bool, a: Arg) returns (us: seq<string>)
    requires HoleLetter(letter)
    ensures var xs := SlotTokens(letter, nullable, a);
      |us| == |xs| && AllBlank(us) && Spread(xs, us) == HoleText(letter, nullable, a)
  {
    var xs := SlotTokens(letter, nullable, a);
    if (letter == 'j' || letter == 'J') && !(nullable && a.isNull) && a.str.Some?
      && ValueEnd(CString(a.str.value), 0).Some? {
      us := LeadingSpread(CString(a.str.value));
    } else {
      us := [""];
      SpreadOne(xs[0]);
    }
  }

  lemma {:induction false} LeadingSpread(text: string) returns (us: seq<string>)
    requires ValueEnd(text, 0).Some?
    ensures var xs := Flat(LeadingValue(text));
      |us| == |xs| && AllBlank(us) && Spread(xs, us) == text[..ValueEnd(text, 0).value]
  {
    us := ReadsSpread(text, 0, Flat(LeadingValue(text)));
  }

  /** Copying the run at the front keeps its tokens. */
  lemma {:induction false} SpreadRun(t: Template, out: string, args: nat -> Arg, k: nat)
    requires GoodTemplate(t) && SpreadOf(out, TemplateTokens(AfterRun(t), args, k))
    ensures SpreadOf(RunText(t) + out, TemplateTokens(t, args, k))
    decreases t
  {
    match t
    case Nil(tail) => SpreadAfterSpace(tail, out, []);
    case More(w, p, rest) =>
      if p.Lit? {
        var more := RunText(rest) + out;
        SpreadRun(rest, out, args, k);
        SpreadToken(p.x, more, TemplateTokens(rest, args, k));
        SpreadAfterSpace(w, p.x.text + more, TemplateTokens(t, args, k));
        Assoc(p.x.text, RunText(rest), out);
        Assoc(w, p.x.text + RunText(rest), out);
      } else {
        SpreadAfterSpace(w, out, TemplateTokens(t, args, k));
      }
  }

  /** Filling in from a position on */
  lemma {:induction false} BuildTemplate(text: string, s: nat, t: Template, args: nat -> Arg, k: nat)
    returns (out: string)
    requires Holds(text, s, t) && GoodTemplate(t)
    ensures BuildFrom(text, s, args, k) == Some(out) && SpreadOf(out, TemplateTokens(t, args, k))
    decreases |text| - s, 1
  {
    RunSplits(t);
    if RunText(t) == "" {
      NoRunInFront(t);
      out := BuildHead(text, s, AfterRun(t), args, k);
      SpreadRun(t, out, args, k);
      assert "" + out == out;
    } else {
      var e := s + |RunText(t)|;
      CopyChunk(text, s, t, e);
      var more := BuildHead(text, e, AfterRun(t), args, k);
      SpreadRun(t, more, args, k);
      out := RunText(t) + more;
    }
  }

  lemma {:induction false} NoRunInFront(t: Template)
    requires GoodTemplate(t) && RunText(t) == ""
    ensures TemplateText(AfterRun(t)) == TemplateText(t)
  {
    RunSplits(t);
    assert "" + TemplateText(AfterRun(t)) == TemplateText(AfterRun(t));
  }

  lemma {:induction false} BuildIdent(text: string, s: nat, n: nat, id: string, args: nat -> Arg, k: nat, more: string,
                                      ys: seq<Lexeme>)
    requires s <= n <= |text| && ChunkAt(text, s) == Ident(n) && text[s..n] == id
    requires BuildFrom(text, n, args, k) == Some(more) && SpreadOf(more, ys)
    ensures var part := NameLexeme(id).text;
      BuildFrom(text, s, args, k) == Some(part + more) && SpreadOf(part + more, [NameLexeme(id)] + ys)
  {
    SpreadToken(NameLexeme(id), more, ys);
  }

  lemma {:induction false} BuildSlot(text: string, s: nat, n: nat, letter: char, nullable: bool, args: nat -> Arg,
      k: nat, more: string,
                                     ys: seq<Lexeme>)
    requires HoleLetter(letter) && s <= |text| && ChunkAt(text, s) == Hole(letter, nullable, n)
    requires n <= |text| && BuildFrom(text, n, args, k + 1) == Some(more) && SpreadOf(more, ys)
    ensures var part := HoleText(letter, nullable, args(k));
      BuildFrom(text, s, args, k) == Some(part + more)
        && SpreadOf(part + more, SlotTokens(letter, nullable, args(k)) + ys)
  {
    var us := SlotSpread(letter, nullable, args(k));
    SpreadJoin(HoleText(letter, nullable, args(k)), SlotTokens(letter, nullable, args(k)), us, more, ys);
  }

  /** Filling in where no run is in front */
  lemma {:induction false} BuildHead(text: string, s: nat, t: Template, args: nat -> Arg, k: nat) returns (out: string)
    requires Holds(text, s, t) && GoodTemplate(t) && (t == Nil("") || (t.More? && t.w == "" && !t.p.Lit?))
    ensures BuildFrom(text, s, args, k) == Some(out) && SpreadOf(out, TemplateTokens(t, args, k))
    decreases |text| - s, 0, 2
  {
    if t.Nil? {
      TemplateBlocks(text, s, t);
      SpreadNothing();
      out := "";
    } else if t.p.Name? {
      out := HeadName(text, s, t.p.id, t.rest, args, k);
    } else {
      out := HeadHole(text, s, t.p.letter, t.p.nullable, t.rest, args, k);
    }
  }

  lemma {:induction false} HeadName(text: string, s: nat, id: string, rest: Template, args: nat -> Arg, k: nat)
    returns (out: string)
    requires Holds(text, s, More("", Name(id), rest)) && GoodTemplate(More("", Name(id), rest))
    ensures BuildFrom(text, s, args, k) == Some(out) && SpreadOf(out, [NameLexeme(id)] + TemplateTokens(rest, args, k))
    decreases |text| - s, 0, 1
  {
    IdentChunk(text, s, id, rest);
    out := BuildName(text, s, s + |id|, id, rest, args, k);
  }

  lemma {:induction false} HeadHole(text: string, s: nat, letter: char, nullable: bool, rest: Template,
      args: nat -> Arg, k: nat)
    returns (out: string)
    requires Holds(text, s, More("", Slot(letter, nullable), rest)) && HoleLetter(letter) && GoodTemplate(rest)
    ensures BuildFrom(text, s, args, k) == Some(out)
    ensures SpreadOf(out, SlotTokens(letter, nullable, args(k)) + TemplateTokens(rest, args, k + 1))
    decreases |text| - s, 0, 1
  {
    SlotChunk(text, s, letter, nullable, rest);
    out := BuildHole(text, s, s + if nullable then 3 else 2, letter, nullable, rest, args, k);
  }

  lemma {:induction false} BuildName(text: string, s: nat, n: nat, id: string, rest: Template, args: nat -> Arg, k: nat)
    returns (out: string)
    requires s < n <= |text| && ChunkAt(text, s) == Ident(n) && text[s..n] == id && Holds(text, n, rest)
      && GoodTemplate(rest)
    ensures BuildFrom(text, s, args, k) == Some(out) && SpreadOf(out, [NameLexeme(id)] + TemplateTokens(rest, args, k))
    decreases |text| - s, 0, 0
  {
    var more := BuildTemplate(text, n, rest, args, k);
    BuildIdent(text, s, n, id, args, k, more, TemplateTokens(rest, args, k));
    out := NameLexeme(id).text + more;
  }

  lemma {:induction false} BuildHole(text: string, s: nat, n: nat, letter: char, nullable: bool, rest: Template,
      args: nat -> Arg,
                                     k: nat) returns (out: string)
    requires s < n <= |text| && ChunkAt(text, s) == Hole(letter, nullable, n) && HoleLetter(letter)
    requires Holds(text, n, rest) && GoodTemplate(rest)
    ensures BuildFrom(text, s, args, k) == Some(out)
    ensures SpreadOf(out, SlotTokens(letter, nullable, args(k)) + TemplateTokens(rest, args, k + 1))
    decreases |text| - s, 0, 0
  {
    var more := BuildTemplate(text, n, rest, args, k + 1);
    BuildSlot(text, s, n, letter, nullable, args, k, more, TemplateTokens(rest, args, k + 1));
    out := HoleText(letter, nullable, args(k)) + more;
  }

  // ---- The tokens are genuine and apart ----

  lemma {:induction false} NameGenuine(id: string)
    requires IsIdent(id)
    ensures Genuine(NameLexeme(id))
  {
    var x := NameLexeme(id).text;
    assert Inner(x) == id;
    PlainIsBody(id);
    QuotedGenuine(x);
  }

  lemma OneGood(x: Lexeme)
    requires Genuine(x)
    ensures [x] != [] && AllGenuine([x]) && Apart([x])
  {
  }

  lemma {:induction false} SlotGenuine(letter: char, nullable: bool, a: Arg)
    requires HoleLetter(letter) && (letter == 'd' ==> Genuine(Lexeme(Number, a.double)))
    ensures var xs := SlotTokens(letter, nullable, a); xs != [] && AllGenuine(xs) && Apart(xs)
  {
    if (letter == 'j' || letter == 'J') && !(nullable && a.isNull) && a.str.Some?
      && ValueEnd(CString(a.str.value), 0).Some? {
      LeadingGenuine(CString(a.str.value));
    } else {
      SlotOne(letter, nullable, a);
      OneGood(SlotTokens(letter, nullable, a)[0]);
    }
  }

  lemma {:induction false} SlotOne(letter: char, nullable: bool, a: Arg)
    requires HoleLetter(letter) && (letter == 'd' ==> Genuine(Lexeme(Number, a.double)))
    requires letter == 'j' || letter == 'J' ==>
      (nullable && a.isNull) || a.str.None? || ValueEnd(CString(a.str.value), 0).None?
    ensures var xs := SlotTokens(letter, nullable, a); |xs| == 1 && xs == [xs[0]] && Genuine(xs[0])
  {
    WordGenuine(Null);
    if letter == 'b' {
      WordGenuine(if a.flag then True else False);
    } else if letter == 'i' {
      IntLexemeGenuine(a.int64);
    } else if (letter == 's' || letter == 'S') && a.str.Some? {
      StringLexemeGenuine(CString(a.str.value));
    }
  }

  lemma {:induction false} LeadingGenuine(text: string)
    requires ValueEnd(text, 0).Some?
    ensures AllGenuine(Flat(LeadingValue(text))) && Apart(Flat(LeadingValue(text)))
  {
    var us := ReadsSpread(text, 0, Flat(LeadingValue(text)));
    FlatApart(LeadingValue(text));
  }

  lemma {:induction false} PartGood(p: Part, a: Arg)
    requires GoodPart(p) && (p.Slot? && p.letter == 'd' ==> Genuine(Lexeme(Number, a.double)))
    ensures var xs := PartTokens(p, a);
      xs != [] && AllGenuine(xs) && Apart(xs) && (!Bare(p) ==> |xs| == 1 && !ScalarKind(xs[0].kind))
  {
    match p
    case Lit(x) =>
    case Name(id) => NameGenuine(id);
    case Slot(letter, nullable) => SlotGenuine(letter, nullable, a);
  }

  lemma {:induction false} TokensGood(t: Template, args: nat -> Arg, k: nat)
    requires GoodTemplate(t) && GoodArgs(t, args, k)
    ensures var xs := TemplateTokens(t, args, k);
      AllGenuine(xs) && Apart(xs) && (t.More? ==> xs != [] && (!Bare(t.p) ==> !ScalarKind(xs[0].kind)))
        && (t.Nil? ==> xs == [])
    decreases t
  {
    match t
    case Nil(_) =>
    case More(_, p, rest) =>
      var xs, ys := PartTokens(p, args(k)), TemplateTokens(rest, args, NextArg(p, k));
      PartGood(p, args(k));
      TokensGood(rest, args, NextArg(p, k));
      ApartAppend(xs, ys);
      GenuineAppend(xs, ys);
  }

  // ---- The result ----

  /** Filling in a template whose parts are set off gives exactly its tokens, with each identifier as one string and
      each hole as its argument; the result is handed out exactly when those tokens are the tokens of a value. */
  lemma {:induction false} BuildKeepsTokens(format: string, t: Template, args: nat -> Arg) returns (out: string)
    requires format == TemplateText(t) && GoodTemplate(t) && GoodArgs(t, args, 0)
    ensures BuildFrom(format, 0, args, 0) == Some(out) && Tokens(out, 0) == TemplateTokens(t, args, 0)
    ensures Built(format, args).Some? <==> exists v :: Proper(v) && Flat(v) == TemplateTokens(t, args, 0)
    ensures Built(format, args).Some? ==> Built(format, args).value == out
  {
    assert format[0..] == format;
    out := BuildTemplate(format, 0, t, args, 0);
    var xs := TemplateTokens(t, args, 0);
    TokensGood(t, args, 0);
    var end := SpreadOfReads(out, xs);
    AllTokens(out, 0, xs, end);
    ValidTokens(out, xs, end);
  }

  /** A text is valid exactly when its tokens are those of a value. */
  lemma {:induction false} ValidTokens(text: string, xs: seq<Lexeme>, end: nat)
    requires After(text, 0, xs) == Some(end) && NextToken(text, end).kind == End
    ensures IsJson(text) <==> exists v :: Proper(v) && Flat(v) == xs
  {
    if IsJson(text) {
      var v := ValueOfTokens(text, xs, end);
    }
    if v :| Proper(v) && Flat(v) == xs {
      TokensOfValue(text, v, end);
    }
  }

  lemma {:induction false} ValueOfTokens(text: string, xs: seq<Lexeme>, end: nat) returns (v: Value)
    requires After(text, 0, xs) == Some(end) && NextToken(text, end).kind == End && IsJson(text)
    ensures Proper(v) && Flat(v) == xs
  {
    var u: Value, e: nat :| Spells(text, 0, u, e) && e <= |text| && NextToken(text, e).kind == End;
    AllTokens(text, 0, Flat(u), e);
    AllTokens(text, 0, xs, end);
    v := u;
  }

  lemma {:induction false} TokensOfValue(text: string, v: Value, end: nat)
    requires Proper(v) && After(text, 0, Flat(v)) == Some(end) && NextToken(text, end).kind == End
    ensures IsJson(text)
  {
    assert Spells(text, 0, v, end);
  }

  /** A string or integer hole is one token, which is read back as the argument; a missing string and a null flag
      give null. */
  lemma {:induction false} SlotReadsBack(letter: char, nullable: bool, a: Arg, text: string, pos: nat)
    requires letter == 's' || letter == 'S' || letter == 'i'
    requires pos <= |text| && After(text, pos, SlotTokens(letter, nullable, a)).Some?
    ensures |SlotTokens(letter, nullable, a)| == 1
    ensures if (nullable && a.isNull) || (letter != 'i' && a.str.None?) then NextToken(text, pos).kind == Null
      else if letter == 'i' then forall fallback: int :: IntAt(text, pos, fallback) == a.int64
      else StringAt(text, pos) == Some(CString(a.str.value))
  {
    var x := SlotTokens(letter, nullable, a)[0];
    AfterOne(text, pos, x);
    if x.kind != Null {
      if letter == 'i' {
        forall fallback: int ensures IntAt(text, pos, fallback) == a.int64 {
          IntReadsBack(text, pos, a.int64, fallback);
        }
      } else {
        StringReadsBack(text, pos, CString(a.str.value));
      }
    }
  }

  // ---- Where parts are not set off ----

  /** A name after a run is left alone by the run exactly if no token begins with it. */
  lemma {:induction false} RunStopsAtName(text: string, s: nat, t: Template, id: string, more: string)
    requires GoodTemplate(t) && AfterRun(t).More? && s <= |text| && text[s..] == RunText(t) + (id + more)
      && RunText(t) != ""
    requires IsIdent(id) && !IdentChar(At(more, 0))
    ensures RunEnd(Z(text), s, true) == Some(s + |RunText(t)|) <==> PlainName(id)
  {
    var z, e := Z(text), s + |RunText(t)|;
    assert text[s..e] == text[s..][..|RunText(t)|] == RunText(t);
    assert z[e..] == id + (more + "\0");
    if PlainName(id) {
      assert z[e..][..|id|] == id && z[e..][|id|] == (more + "\0")[0];
      assert NameThen(z[e..], |id|);
      RunFound(text, s, e, t);
    } else {
      var x := NameToken(id);
      RunGoesOn(z, s, e, t, x);
    }
  }

  /** The token that begins an identifier that is not plain */
  lemma {:induction false} NameToken(id: string) returns (x: Lexeme)
    requires IsIdent(id) && !PlainName(id)
    ensures Genuine(x) && x.text <= id
  {
    if "true" <= id {
      x := WordLexeme(True);
      WordGenuine(True);
    } else if "false" <= id {
      x := WordLexeme(False);
      WordGenuine(False);
    } else if "null" <= id {
      x := WordLexeme(Null);
      WordGenuine(Null);
    } else {
      x := Lexeme(Number, id[..2]);
      SignedDigit(id[..2]);
    }
  }

  lemma SignedDigit(x: string)
    requires |x| == 2 && x[0] == '-' && Digit(x[1])
    ensures Genuine(Lexeme(Number, x))
  {
    assert x[1..] == [x[1]];
    SignedGenuine(x);
  }

  lemma {:induction false} RunGoesOn(z: string, s: nat, e: nat, t: Template, x: Lexeme)
    requires GoodTemplate(t) && s <= e <= |z| && z[s..e] == RunText(t) && Genuine(x) && x.text <= z[e..]
    ensures RunEnd(z, s, true) != Some(e)
  {
    var ps := RunPieces(t);
    var r := e + |x.text|;
    assert z[e..r] == x.text;
    assert z[s..r] == z[s..e] + z[e..r];
    ConcatSnoc(ps, x);
    assert Covers(ps + [x], z[s..r], true);
    GenuineStarts(x);
    RunEndLongest(z, s, true);
  }

  /** Two holes side by side are filled in as one token. */
  lemma HolesMerge(args: nat -> Arg)
    requires args(0).int64 == 1 && args(1).int64 == 2
    ensures BuildFrom("%i%i", 0, args, 0) == Some("12")
  {
    var text := "%i%i";
    assert IntText(1) == "1" && IntText(2) == "2";
    assert ChunkAt(text, 0) == Hole('i', false, 2) && ChunkAt(text, 2) == Hole('i', false, 4)
      && ChunkAt(text, 4) == Stop;
    assert BuildFrom(text, 4, args, 2) == Some("");
    assert BuildFrom(text, 2, args, 1) == Some("2" + "");
    assert "2" + "" == "2" && "1" + "2" == "12";
  }
}
