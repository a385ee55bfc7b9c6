/** The compactor of sjson.c: runs of tokens are copied, white space between them is dropped. */
module JsonCompact {
  import opened Wrappers
  import opened JsonLexer
  import opened JsonTokens
  import opened JsonGrammar
  import opened JsonRuns

  // ---- Tokens stay together ----

  lemma {:induction false} FirstAfter(xs: seq<Lexeme>, c: char, more: string)
    requires AllGenuine(xs) && (WsChar(c) || c == '\0') && (xs != [] ==> !ScalarKind(xs[0].kind))
    ensures var rest := Concat(xs) + ([c] + more); rest != "" && !NumeralChar(rest[0])
  {
    var rest := Concat(xs) + ([c] + more);
    if xs == [] {
      assert rest[0] == c;
    } else {
      StructuralStart(xs[0]);
      assert rest[0] == xs[0].text[0];
    }
  }

  /** Tokens cannot run across white space or the terminator that follows tokens of a value. */
  lemma {:induction false} NoRunAcross(xs: seq<Lexeme>, ys: seq<Lexeme>, c: char, more: string)
    requires AllGenuine(xs) && Apart(xs) && AllGenuine(ys) && (WsChar(c) || c == '\0')
    requires Concat(ys) == Concat(xs) + ([c] + more)
    ensures false
    decreases xs
  {
    var after := [c] + more;
    assert ys != [] by {
      assert |Concat(ys)| >= |after|;
    }
    if xs == [] {
      assert Concat(xs) + after == after;
      assert ys[0].text != "" ==> Concat(ys)[0] == ys[0].text[0] && after[0] == c;
      GenuineStarts(ys[0]);
      NotNul(ys[0]);
    } else {
      var x, rest := xs[0], Concat(xs[1..]) + after;
      Assoc(x.text, Concat(xs[1..]), after);
      if x.kind == Number {
        NumberChars(x);
        FirstAfter(xs[1..], c, more);
        GenuinePieces(ys, false);
        var k := Tiles(x.text, rest, ys, false);
        NoRunAcross(xs[1..], ys[k..], c, more);
      } else {
        HeadsEqual(x, ys[0], rest, Concat(ys[1..]));
        SameRest(x.text, rest, Concat(ys[1..]));
        NoRunAcross(xs[1..], ys[1..], c, more);
      }
    }
  }

  // ---- Compacting ----

  /** What is left of a text from a position on, by the rules: a run of tokens is copied, white space is
      dropped, the end ends it, and anything else fails. */
  function CompactFrom(text: string, s: nat): Option<string>
    requires s <= |text|
    decreases |text| - s, 1
  {
    var c := At(text, s);
    if c == '\0' then Some("")
    else if WsChar(c) then CompactFrom(text, s + 1)
    else CompactAfterRun(text, s)
  }

  function CompactAfterRun(text: string, s: nat): Option<string>
    requires s <= |text|
    decreases |text| - s, 0
  {
    RunWithin(text, s, false);
    var end := RunEnd(Z(text), s, false);
    if end.None? then None else Behind(text[s..end.value], CompactFrom(text, end.value))
  }

  /** `s_json_compact` */
  method Compact(text: string) returns (r: Option<string>)
    ensures r == CompactFrom(text, 0)
  {
    var str, c := "", 0;
    NothingBefore(CompactFrom(text, 0));
    while true
      invariant 0 <= c <= |text|
      invariant CompactFrom(text, 0) == Behind(str, CompactFrom(text, c))
      decreases |text| - c
    {
      var s := c;
      if At(text, s) == '\0' {
        assert str + "" == str;
        return Some(str);
      } else if WsChar(At(text, s)) {
        c := c + 1;
        while WsChar(At(text, c))
          invariant s < c <= |text|
          invariant CompactFrom(text, s) == CompactFrom(text, c)
          decreases |text| - c
        {
          c := c + 1;
        }
      } else {
        RunWithin(text, s, false);
        var end := ScanRun(text, s, false);
        if end.None? {
          return None;
        }
        c := end.value;
        if CompactFrom(text, c).Some? {
          Assoc(str, text[s..c], CompactFrom(text, c).value);
        }
        str := str + text[s..c];
      }
    }
  }

  // ---- Compacting a valid text ----

  /** Tokens that stand together in a text at a position */
  predicate RunAt(text: string, p: nat, xs: seq<Lexeme>)
  {
    xs != [] && AllGenuine(xs) && Apart(xs) && OccursAt(text, p, Concat(xs))
  }

  lemma RunOfOne(text: string, p: nat, x: Lexeme)
    requires Genuine(x) && OccursAt(text, p, x.text)
    ensures RunAt(text, p, [x]) && Concat([x]) == x.text
  {
    assert [x][1..] == [];
    assert x.text + "" == x.text;
  }

  /** White space or the end of the text */
  predicate Stops(text: string, e: nat)
  {
    e <= |text| && (WsChar(At(text, e)) || At(text, e) == '\0')
  }

  lemma {:induction false} NoLongerRun(z: string, s: nat, e: nat, xs: seq<Lexeme>, r: nat)
    requires AllGenuine(xs) && Apart(xs) && s <= e < r <= |z| && z[s..e] == Concat(xs) && (WsChar(z[e]) || z[e] == '\0')
    ensures !IsRun(z[s..r], false)
  {
    if IsRun(z[s..r], false) {
      var ys :| Covers(ys, z[s..r], false);
      PiecesGenuine(ys);
      assert z[s..r] == z[s..e] + ([z[e]] + z[e + 1..r]);
      NoRunAcross(xs, ys, z[e], z[e + 1..r]);
    }
  }

  lemma {:induction false} NoneLonger(z: string, s: nat, e: nat, xs: seq<Lexeme>)
    requires xs != [] && AllGenuine(xs) && Apart(xs) && s <= e < |z| && z[s..e] == Concat(xs)
    requires WsChar(z[e]) || z[e] == '\0'
    ensures IsRun(z[s..e], false) && forall r | e < r <= |z| :: !IsRun(z[s..r], false)
  {
    GenuinePieces(xs, false);
    assert Covers(xs, z[s..e], false);
    forall r | e < r <= |z| ensures !IsRun(z[s..r], false) {
      NoLongerRun(z, s, e, xs, r);
    }
  }

  /** Tokens of a value that stand together, before white space or the end, are one longest run. */
  lemma {:induction false} RunIsTokens(text: string, s: nat, xs: seq<Lexeme>)
    requires RunAt(text, s, xs) && Stops(text, s + |Concat(xs)|)
    ensures RunEnd(Z(text), s, false) == Some(s + |Concat(xs)|)
  {
    var z, e := Z(text), s + |Concat(xs)|;
    OccursInZ(text, s, Concat(xs));
    NoneLonger(z, s, e, xs);
    GenuineStarts(xs[0]);
    RunEndLongest(z, s, false);
    LongestIs(z, s, e, RunEnd(z, s, false), false);
  }

  lemma {:induction false} SkipSpace(text: string, s: nat, w: string)
    requires OccursAt(text, s, w) && AllWs(w)
    ensures CompactFrom(text, s) == CompactFrom(text, s + |w|)
    decreases |w|
  {
    if w != "" {
      assert text[s] == text[s..s + |w|][0] == w[0];
      assert text[s + 1..s + |w|] == w[1..];
      SkipSpace(text, s + 1, w[1..]);
    }
  }

  /** What follows the value in a valid text: white space and the end */
  lemma {:induction false} EndChar(text: string, s: nat)
    requires s <= |text| && NextToken(text, s).kind == End
    ensures At(text, s) == '\0' || WsChar(At(text, s))
  {
    var z, m := Z(text), ScanMatch(Z(text), s);
    ScanLongest(z, s);
    assert z[s..m.end][0] == At(text, s);
  }

  lemma {:induction false} EndIsSpace(text: string, s: nat)
    requires s <= |text| && NextToken(text, s).kind == End
    ensures CompactFrom(text, s) == Some("")
    decreases |text| - s
  {
    EndChar(text, s);
    if At(text, s) != '\0' {
      SpaceThenEnd(text, s);
      EndIsSpace(text, s + 1);
    }
  }

  /** One white space character less before the end */
  lemma SpaceThenEnd(text: string, s: nat)
    requires s < |text| && NextToken(text, s).kind == End && WsChar(text[s])
    ensures NextToken(text, s + 1).kind == End
  {
    var z, m := Z(text), ScanMatch(Z(text), s);
    ScanWithin(text, s);
    Advance(z, s, Start, Match(Tok(Invalid), s));
    BlankScan(z, s + 1, Match(Space, s + 1));
    if m.end > s + 1 {
      var m1 := ScanMatch(z, s + 1);
      ScanWithin(text, s + 1);
      Advance(z, s + 1, Start, Match(Tok(Invalid), s + 1));
      BlankScan(z, s + 2, Match(Space, s + 2));
    }
  }

  /** Scanning white space gives white space, up to the same end from everywhere in it. */
  lemma {:induction false} BlankScan(z: string, c: nat, best: Match)
    requires c <= |z| && best == Match(Space, c)
    ensures var m := Continue(z, c, Blank, best);
      m.rule == Space && m.end >= c && (m.end > c <==> c < |z| && WsChar(z[c]))
      && (c < |z| && WsChar(z[c]) ==> m == Continue(z, c + 1, Blank, Match(Space, c + 1)))
    decreases |z| - c
  {
    if c < |z| {
      Advance(z, c, Blank, best);
      if WsChar(z[c]) {
        BlankScan(z, c + 1, Match(Space, c + 1));
      }
    }
  }

  lemma SpaceStops(text: string, s: nat, w: string)
    requires OccursAt(text, s, w) && AllWs(w) && w != ""
    ensures Stops(text, s)
  {
    OccursFirst(text, s, w);
  }

  lemma CompactRun(text: string, p: nat, xs: seq<Lexeme>, more: string)
    requires RunAt(text, p, xs) && Stops(text, p + |Concat(xs)|) && CompactFrom(text, p + |Concat(xs)|) == Some(more)
    ensures CompactFrom(text, p) == Some(Concat(xs) + more)
  {
    RunIsTokens(text, p, xs);
    GenuineStarts(xs[0]);
    NotNul(xs[0]);
    assert Concat(xs)[0] == xs[0].text[0];
    OccursFirst(text, p, Concat(xs));
  }

  /** A run, white space, and the rest of a text */
  lemma {:induction false} CompactBreak(text: string, p: nat, run: seq<Lexeme>, s: nat, w: string, xs: seq<Lexeme>)
    requires RunAt(text, p, run) && s == p + |Concat(run)| && OccursAt(text, s, w) && AllWs(w) && w != ""
    requires CompactFrom(text, s + |w|) == Some(Concat(xs))
    ensures CompactFrom(text, p) == Some(Concat(run + xs))
  {
    SpaceStops(text, s, w);
    SkipSpace(text, s, w);
    CompactRun(text, p, run, Concat(xs));
    ConcatAppend(run, xs);
  }

  lemma {:induction false} CompactLast(text: string, p: nat, run: seq<Lexeme>, s: nat)
    requires RunAt(text, p, run) && s == p + |Concat(run)| && Stops(text, s) && CompactFrom(text, s) == Some("")
    ensures CompactFrom(text, p) == Some(Concat(run + []))
  {
    assert run + [] == run && Concat(run) + "" == Concat(run);
    CompactRun(text, p, run, "");
  }

  /** A token right after a run belongs to it. */
  lemma {:induction false} RunGrows(text: string, p: nat, run: seq<Lexeme>, x: Lexeme, more: seq<Lexeme>)
    requires RunAt(text, p, run) && RunAt(text, p + |Concat(run)|, [x]) && Apart(run + ([x] + more))
    ensures RunAt(text, p, run + [x]) && |Concat(run + [x])| == |Concat(run)| + |Concat([x])|
    ensures run + ([x] + more) == (run + [x]) + more
  {
    Assoc(run, [x], more);
    ApartParts(run + [x], more);
    assert Genuine([x][0]);
    ConcatAppend(run, [x]);
    OccursAppend(text, p, Concat(run), Concat([x]));
  }

  /** Compacting a run and the tokens after it: some of those belong to the run, the others come after
      white space. */
  lemma {:induction false} CompactMore(text: string, p: nat, run: seq<Lexeme>, s: nat, xs: seq<Lexeme>,
      ws: seq<string>, e: nat)
    requires RunAt(text, p, run) && s == p + |Concat(run)| && Apart(run + xs)
    requires |xs| == |ws| && AllGenuine(xs) && AllBlank(ws)
    requires OccursAt(text, s, Spread(xs, ws)) && e == s + |Spread(xs, ws)|
    requires Stops(text, e) && CompactFrom(text, e) == Some("")
    ensures CompactFrom(text, p) == Some(Concat(run + xs))
    decreases |xs|, 1
  {
    if xs == [] {
      CompactLast(text, p, run, s);
    } else {
      var w, x, more, spaces, next := SpreadFirst(text, s, xs, ws);
      RunOfOne(text, s + |w|, x);
      if w == "" {
        CompactJoined(text, p, run, s, xs, w, x, more, spaces, next, e);
      } else {
        CompactApart(text, p, run, s, xs, w, x, more, spaces, next, e);
      }
    }
  }

  lemma {:induction false} CompactJoined(text: string, p: nat, run: seq<Lexeme>, s: nat, xs: seq<Lexeme>,
                                         w: string, x: Lexeme, more: seq<Lexeme>, spaces: seq<string>, next: nat,
                                         e: nat)
    requires RunAt(text, p, run) && s == p + |Concat(run)| && Apart(run + xs)
    requires xs == [x] + more && |more| == |spaces| && AllGenuine(more) && AllBlank(spaces)
    requires w == "" && RunAt(text, s + |w|, [x]) && x.text == Concat([x])
    requires next == s + |w| + |x.text| && OccursAt(text, next, Spread(more, spaces))
      && e == next + |Spread(more, spaces)|
    requires Stops(text, e) && CompactFrom(text, e) == Some("")
    ensures CompactFrom(text, p) == Some(Concat(run + xs))
    decreases |xs|, 0
  {
    RunGrows(text, p, run, x, more);
    CompactMore(text, p, run + [x], next, more, spaces, e);
  }

  lemma {:induction false} CompactApart(text: string, p: nat, run: seq<Lexeme>, s: nat, xs: seq<Lexeme>,
                                        w: string, x: Lexeme, more: seq<Lexeme>, spaces: seq<string>, next: nat, e: nat)
    requires RunAt(text, p, run) && s == p + |Concat(run)| && Apart(run + xs)
    requires xs == [x] + more && |more| == |spaces| && AllGenuine(more) && AllBlank(spaces)
    requires w != "" && AllWs(w) && OccursAt(text, s, w) && RunAt(text, s + |w|, [x]) && x.text == Concat([x])
    requires next == s + |w| + |x.text| && OccursAt(text, next, Spread(more, spaces))
      && e == next + |Spread(more, spaces)|
    requires Stops(text, e) && CompactFrom(text, e) == Some("")
    ensures CompactFrom(text, p) == Some(Concat(run + xs))
    decreases |xs|, 0
  {
    ApartParts(run, xs);
    CompactMore(text, s + |w|, [x], next, more, spaces, e);
    CompactBreak(text, p, run, s, w, xs);
  }

  lemma {:induction false} CompactFirst(text: string, s: nat, xs: seq<Lexeme>,
                                        w: string, x: Lexeme, more: seq<Lexeme>, spaces: seq<string>, next: nat, e: nat)
    requires xs == [x] + more && |more| == |spaces| && AllGenuine(more) && AllBlank(spaces) && Apart(xs)
    requires AllWs(w) && OccursAt(text, s, w) && RunAt(text, s + |w|, [x]) && x.text == Concat([x])
    requires next == s + |w| + |x.text| && OccursAt(text, next, Spread(more, spaces))
      && e == next + |Spread(more, spaces)|
    requires Stops(text, e) && CompactFrom(text, e) == Some("")
    ensures CompactFrom(text, s) == Some(Concat(xs))
  {
    CompactMore(text, s + |w|, [x], next, more, spaces, e);
    SkipSpace(text, s, w);
  }

  lemma CompactSpread(text: string, s: nat, xs: seq<Lexeme>, ws: seq<string>, e: nat)
    requires |xs| == |ws| && xs != [] && AllGenuine(xs) && AllBlank(ws) && Apart(xs)
      && OccursAt(text, s, Spread(xs, ws))
    requires e == s + |Spread(xs, ws)| && Stops(text, e) && CompactFrom(text, e) == Some("")
    ensures CompactFrom(text, s) == Some(Concat(xs))
  {
    var w, x, more, spaces, next := SpreadFirst(text, s, xs, ws);
    RunOfOne(text, s + |w|, x);
    CompactFirst(text, s, xs, w, x, more, spaces, next, e);
  }

  /** Compacting a valid text leaves exactly its tokens, without any white space between them. */
  lemma {:induction false} CompactKeepsTokens(text: string, xs: seq<Lexeme>, end: nat)
    requires xs != [] && Apart(xs) && After(text, 0, xs) == Some(end) && NextToken(text, end).kind == End
    ensures CompactFrom(text, 0) == Some(Concat(xs))
  {
    var ws := ReadsSpread(text, 0, xs);
    EndChar(text, end);
    EndIsSpace(text, end);
    CompactSpread(text, 0, xs, ws, end);
  }

  /** Tokens without white space between them are read back, are valid if they are those of a value, and
      are left as they are by compacting. */
  lemma {:induction false} CompactIsFixed(out: string, xs: seq<Lexeme>)
    requires xs != [] && AllGenuine(xs) && Apart(xs) && out == Concat(xs)
    ensures After(out, 0, xs) == Some(|out|) && NextToken(out, |out|).kind == End && CompactFrom(out, 0) == Some(out)
  {
    assert out[0..|out|] == out;
    ConcatReads(out, 0, xs);
    EndOfText(out);
    CompactKeepsTokens(out, xs, |out|);
  }

  lemma {:induction false} IsJsonBy(text: string, v: Value, end: nat)
    requires Spells(text, 0, v, end) && end <= |text| && NextToken(text, end).kind == End
    ensures IsJson(text)
  {
  }

  lemma {:induction false} ReadAreGenuine(text: string, xs: seq<Lexeme>)
    requires After(text, 0, xs).Some?
    ensures AllGenuine(xs)
  {
    var ws := ReadsSpread(text, 0, xs);
  }

  /** Compacting a wholly valid text leaves exactly its tokens, without any white space between them; the
      result is valid, spells the same value, and is left as it is by compacting again. */
  lemma CompactKeepsMeaning(text: string, v: Value, end: nat) returns (out: string)
    requires Spells(text, 0, v, end) && NextToken(text, end).kind == End
    ensures out == Concat(Flat(v)) && CompactFrom(text, 0) == Some(out)
    ensures Spells(out, 0, v, |out|) && IsJson(out) && CompactFrom(out, 0) == Some(out)
  {
    out := Concat(Flat(v));
    FlatApart(v);
    ReadAreGenuine(text, Flat(v));
    CompactKeepsTokens(text, Flat(v), end);
    CompactIsFixed(out, Flat(v));
    IsJsonBy(out, v, |out|);
  }

  lemma {:induction false} FractionRun(x: string)
    requires |x| >= 3 && '1' <= x[0] <= '9' && x[1] == '.' && AllDigits(x[2..])
    ensures Run(Start, x) == Fraction
  {
    var y, z := x[1..], x[2..];
    assert y[1..] == z && y[0] == '.';
    assert Run(Start, x) == Run(Digits, y);
    assert Run(Digits, y) == Run(Dot, z);
    assert Run(Dot, z) == Run(Fraction, z[1..]);
    FractionStays(z[1..]);
  }

  lemma {:induction false} FractionStays(x: string)
    requires AllDigits(x)
    ensures Run(Fraction, x) == Fraction
  {
    if x != "" {
      FractionStays(x[1..]);
    }
  }

  lemma NumberThenDot(text: string, x: string)
    requires Run(Start, x) == Fraction && x != "" && OccursAt(text, 0, x) && At(text, |x|) == '.'
    ensures NextToken(text, 0) == Lexed(Number, 0, |x|) && NextToken(text, |x|).kind == Invalid
  {
    var z := Z(text);
    OccursInZ(text, 0, x);
    ScanExact(z, 0, x, Tok(Number));
    assert z[|x|..|x| + 1] == ".";
    JsonLexer.RunOne('.');
    ScanExact(z, |x|, ".", Tok(Invalid));
  }

  lemma TwoNumbers(a: string, b: string)
    requires Run(Start, a) == Fraction && Run(Start, b) == Fraction
    ensures IsRun(a + b, false)
  {
    var xs := [Lexeme(Number, a), Lexeme(Number, b)];
    assert xs == [xs[0]] + [xs[1]];
    ConcatSnoc([xs[0]], xs[1]);
    ConcatSnoc([], xs[0]);
    assert [] + [xs[0]] == [xs[0]] && "" + a == a;
    GenuinePieces(xs, false);
    assert Covers(xs, a + b, false);
  }

  lemma RunToEnd(text: string)
    requires IsRun(text, false) && text != ""
    ensures RunEnd(Z(text), 0, false) == Some(|text|)
  {
    RunEndLongest(Z(text), 0, false);
    RunWithin(text, 0, false);
    assert Z(text)[0..|text|] == text;
  }

  lemma CopiedWhole(text: string)
    requires IsRun(text, false) && text != "" && text[0] != '\0' && !WsChar(text[0])
    ensures CompactFrom(text, 0) == Some(text)
  {
    RunToEnd(text);
    assert text[0..|text|] == text && text + "" == text;
    assert CompactFrom(text, |text|) == Some("");
  }

  lemma CopiedTogether(text: string, a: string, b: string)
    requires Run(Start, a) == Fraction && Run(Start, b) == Fraction && text == a + b
    requires text != "" && text[0] != '\0' && !WsChar(text[0])
    ensures RunEnd(Z(text), 0, false) == Some(|text|) && CompactFrom(text, 0) == Some(text)
  {
    TwoNumbers(a, b);
    RunToEnd(text);
    CopiedWhole(text);
  }

  /** A text that the tokenizer reads as a number and an invalid character is copied as one run, because
      two numbers cover it. */
  lemma NumbersInOneRun()
    ensures var text := "1.23.4";
      NextToken(text, 0) == Lexed(Number, 0, 4) && NextToken(text, 4).kind == Invalid
      && RunEnd(Z(text), 0, false) == Some(6) && CompactFrom(text, 0) == Some(text)
  {
    var text, first, second := "1.23.4", "1.2", "3.4";
    assert first + second == text;
    FractionRun(text[..4]);
    FractionRun(first);
    FractionRun(second);
    NumberThenDot(text, text[..4]);
    CopiedTogether(text, first, second);
  }
}
