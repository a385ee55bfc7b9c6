/** Sequences of tokens and the texts they come from. */
module JsonTokens {
  import opened Wrappers
  import opened JsonLexer

  /** A token with its own text */
  datatype Lexeme = Lexeme(kind: Kind, text: string)

  /** The text is one that the tokenizer accepts for the kind. */
  predicate Genuine(x: Lexeme)
  {
    Real(x.kind) && Accepts(Run(Start, x.text)) == Some(Tok(x.kind))
  }

  /** In terms of the rules: the text matches the rule of the kind, and no earlier one. */
  lemma GenuineByRules(x: Lexeme)
    ensures Genuine(x) <==> Real(x.kind) && FirstMatch(Tok(x.kind), x.text)
  {
    RunDecides(x.text);
    if FirstMatch(Tok(x.kind), x.text) {
      FirstMatchAccepts(Tok(x.kind), x.text);
    }
  }

  predicate StringKind(k: Kind)
  {
    k == String || k == NoescString
  }

  predicate ScalarKind(k: Kind)
  {
    StringKind(k) || k == Number || k == False || k == True || k == Null
  }

  function LexemeAt(text: string, t: Lexed): Lexeme
    requires t.start <= t.end <= |text|
  {
    Lexeme(t.kind, text[t.start..t.end])
  }

  /** All tokens from a position up to the end of the text or an invalid character */
  function Tokens(text: string, pos: nat): seq<Lexeme>
    requires pos <= |text|
    decreases |text| - pos
  {
    var t := NextToken(text, pos);
    if Real(t.kind) then [LexemeAt(text, t)] + Tokens(text, t.end) else []
  }

  /** Where a text goes on after some tokens, if those are the ones that come next */
  function After(text: string, pos: nat, xs: seq<Lexeme>): (r: Option<nat>)
    requires pos <= |text|
    ensures r.Some? ==> pos <= r.value <= |text|
    decreases xs
  {
    if xs == [] then Some(pos)
    else
      var t := NextToken(text, pos);
      if Real(t.kind) && LexemeAt(text, t) == xs[0] then After(text, t.end, xs[1..]) else None
  }

  lemma {:induction false} AfterAppend(text: string, pos: nat, xs: seq<Lexeme>, ys: seq<Lexeme>)
    requires pos <= |text|
    ensures After(text, pos, xs + ys) ==
      match After(text, pos, xs) case None => None case Some(e) => After(text, e, ys)
    decreases xs
  {
    if xs == [] {
      assert xs + ys == ys;
    } else {
      assert (xs + ys)[1..] == xs[1..] + ys;
      var t := NextToken(text, pos);
      if Real(t.kind) {
        AfterAppend(text, t.end, xs[1..], ys);
      }
    }
  }

  lemma {:induction false} AfterOne(text: string, pos: nat, x: Lexeme)
    requires pos <= |text|
    ensures var t := NextToken(text, pos);
      After(text, pos, [x]) == if Real(t.kind) && LexemeAt(text, t) == x then Some(t.end) else None
  {
    assert [x][1..] == [];
  }

  // ---- A scan finds an expected token ----

  /** The characters that can make a number longer */
  predicate NumberChar(c: char)
  {
    Digit(c) || c == '.' || ExpChar(c)
  }

  lemma {:induction false} ContinueExact(z: string, c: nat, q: State, best: Match, x: string, r: Rule)
    requires c + |x| <= |z| && z[c..c + |x|] == x && Accepts(Run(q, x)) == Some(r)
    requires c + |x| < |z| ==> Step(Run(q, x), z[c + |x|]) == Dead
    requires x == "" ==> best == Match(r, c)
    ensures Continue(z, c, q, best) == Match(r, c + |x|)
    decreases x
  {
    if x != "" {
      assert z[c] == x[0] && z[c + 1..c + 1 + |x[1..]|] == x[1..];
      var next := Step(q, x[0]);
      if q == Dead || next == Dead {
        RunDead(x);
        RunDead(x[1..]);
      }
      ContinueExact(z, c + 1, next, Remember(next, c + 1, best), x[1..], r);
    }
  }

  /** A text that a rule matches, before a character with which the automaton gives up, is the longest
      match. */
  lemma {:induction false} ScanExact(z: string, s: nat, x: string, r: Rule)
    requires x != "" && s + |x| <= |z| && z[s..s + |x|] == x && Accepts(Run(Start, x)) == Some(r)
    requires s + |x| < |z| ==> Step(Run(Start, x), z[s + |x|]) == Dead
    ensures ScanMatch(z, s) == Match(r, s + |x|)
  {
    ContinueExact(z, s, Start, Match(Tok(Invalid), s), x, r);
  }

  lemma GenuineEnds(x: Lexeme, c: char)
    requires Genuine(x) && (x.kind == Number ==> !NumberChar(c))
    ensures Step(Run(Start, x.text), c) == Dead
  {
  }

  lemma {:induction false} RunFromBlank(x: string)
    ensures Run(Blank, x) in {Blank, Dead}
  {
    if x != "" {
      if WsChar(x[0]) {
        RunFromBlank(x[1..]);
      } else {
        RunDead(x[1..]);
      }
    }
  }

  lemma GenuineStarts(x: Lexeme)
    requires Genuine(x)
    ensures x.text != "" && !WsChar(x.text[0])
    ensures !ScalarKind(x.kind) ==> !NumberChar(x.text[0])
  {
    assert Run(Start, "") == Start;
    GenuineByRules(x);
    if WsChar(x.text[0]) {
      RunFromBlank(x.text[1..]);
    }
  }

  lemma {:induction false} SpaceFirst(w: string)
    requires w != "" && AllWs(w)
    ensures Run(Start, w) == Blank
  {
    RunBlank(w[1..]);
  }

  predicate OccursAt(text: string, pos: nat, s: string)
  {
    pos + |s| <= |text| && text[pos..pos + |s|] == s
  }

  lemma OccursAppend(text: string, pos: nat, a: string, b: string)
    ensures OccursAt(text, pos, a + b) <==> OccursAt(text, pos, a) && OccursAt(text, pos + |a|, b)
  {
    if pos + |a| + |b| <= |text| {
      assert text[pos..pos + |a| + |b|] == text[pos..pos + |a|] + text[pos + |a|..pos + |a| + |b|];
      if OccursAt(text, pos, a + b) {
        assert a == (a + b)[..|a|] && b == (a + b)[|a|..];
      }
    }
  }

  lemma OccursFirst(text: string, pos: nat, s: string)
    requires OccursAt(text, pos, s) && s != ""
    ensures At(text, pos) == s[0]
  {
    assert text[pos..pos + |s|][0] == text[pos];
  }

  lemma OccursInZ(text: string, pos: nat, s: string)
    requires OccursAt(text, pos, s)
    ensures OccursAt(Z(text), pos, s)
  {
    assert Z(text)[pos..pos + |s|] == text[pos..pos + |s|];
  }

  lemma SpaceScanned(text: string, pos: nat, w: string, start: nat)
    requires OccursAt(text, pos, w) && w != "" && AllWs(w) && start == pos + |w| && !WsChar(At(text, start))
    ensures ScanMatch(Z(text), pos) == Match(Space, start)
  {
    SpaceFirst(w);
    OccursInZ(text, pos, w);
    ScanExact(Z(text), pos, w, Space);
  }

  lemma SpaceSkipped(text: string, pos: nat, start: nat)
    requires pos <= start <= |text| && ScanMatch(Z(text), pos) == Match(Space, start)
    ensures NextToken(text, pos) == NextToken(text, start)
  {
  }

  lemma {:induction false} TokenScanned(text: string, start: nat, x: Lexeme, next: nat)
    requires OccursAt(text, start, x.text) && Genuine(x) && next == start + |x.text|
    requires x.kind == Number ==> !NumberChar(At(text, next))
    ensures NextToken(text, start) == Lexed(x.kind, start, next)
  {
    GenuineStarts(x);
    GenuineEnds(x, At(text, next));
    OccursInZ(text, start, x.text);
    ScanExact(Z(text), start, x.text, Tok(x.kind));
  }

  lemma SolidFirst(text: string, start: nat, x: Lexeme)
    requires OccursAt(text, start, x.text) && Genuine(x)
    ensures !WsChar(At(text, start))
  {
    GenuineStarts(x);
    OccursFirst(text, start, x.text);
  }

  /** After white space, a genuine token is the next one; a number must not be followed by a character
      that could belong to it. */
  lemma TokenFound(text: string, pos: nat, w: string, start: nat, x: Lexeme, next: nat)
    requires OccursAt(text, pos, w) && AllWs(w) && start == pos + |w|
    requires OccursAt(text, start, x.text) && Genuine(x) && next == start + |x.text|
    requires x.kind == Number ==> !NumberChar(At(text, next))
    ensures NextToken(text, pos) == Lexed(x.kind, start, next)
  {
    TokenScanned(text, start, x, next);
    if w != "" {
      SolidFirst(text, start, x);
      SpaceScanned(text, pos, w, start);
      SpaceSkipped(text, pos, start);
    }
  }

  lemma ScannedText(text: string, pos: nat, m: Match)
    requires pos <= |text| && m == ScanMatch(Z(text), pos) && (m.rule == Space || Real(m.rule.kind))
    ensures pos < m.end <= |text| && FirstMatch(m.rule, text[pos..m.end])
  {
    ScanLongest(Z(text), pos);
    ScanWithin(text, pos);
    assert Z(text)[pos..m.end] == text[pos..m.end];
  }

  lemma SpaceAppend(text: string, a: nat, b: nat, c: nat)
    requires a <= b <= c <= |text| && AllWs(text[a..b]) && AllWs(text[b..c])
    ensures AllWs(text[a..c])
  {
    assert text[a..c] == text[a..b] + text[b..c];
  }

  /** The next token is genuine, with only white space before it. */
  lemma {:induction false} TokenPlace(text: string, pos: nat)
    requires pos <= |text| && Real(NextToken(text, pos).kind)
    ensures var t := NextToken(text, pos); AllWs(text[pos..t.start]) && Genuine(LexemeAt(text, t))
    decreases |text| - pos
  {
    var m, t := ScanMatch(Z(text), pos), NextToken(text, pos);
    ScannedText(text, pos, m);
    if m.rule == Space {
      TokenPlace(text, m.end);
      SpaceAppend(text, pos, m.end, t.start);
    } else {
      FirstMatchAccepts(m.rule, text[pos..m.end]);
    }
  }

  lemma NulAccepted()
    ensures Run(Start, "\0") == Done(End)
  {
    RunOne('\0');
  }

  lemma {:induction false} EndOfText(text: string)
    ensures NextToken(text, |text|).kind == End
  {
    assert ScanMatch(Z(text), |text|) == Match(Tok(End), |text| + 1) by {
      NulAccepted();
      assert Z(text)[|text|..|text| + 1] == "\0";
      ScanExact(Z(text), |text|, "\0", Tok(End));
    }
  }

  // ---- Tokens spread out with white space ----

  /** No two tokens that are values by themselves are next to each other. */
  predicate Apart(xs: seq<Lexeme>)
  {
    |xs| <= 1 || (!(ScalarKind(xs[0].kind) && ScalarKind(xs[1].kind)) && Apart(xs[1..]))
  }

  predicate AllGenuine(xs: seq<Lexeme>)
  {
    forall i | 0 <= i < |xs| :: Genuine(xs[i])
  }

  predicate AllBlank(ws: seq<string>)
  {
    forall i | 0 <= i < |ws| :: AllWs(ws[i])
  }

  /** The texts of tokens, each with some white space before it */
  function Spread(xs: seq<Lexeme>, ws: seq<string>): string
    requires |xs| == |ws|
  {
    if xs == [] then "" else ws[0] + xs[0].text + Spread(xs[1..], ws[1..])
  }

  lemma {:induction false} SpreadStarts(xs: seq<Lexeme>, ws: seq<string>)
    requires |xs| == |ws| && AllGenuine(xs) && AllBlank(ws) && xs != [] && !ScalarKind(xs[0].kind)
    ensures Spread(xs, ws) != "" && !NumberChar(Spread(xs, ws)[0])
  {
    GenuineStarts(xs[0]);
    var s := Spread(xs, ws);
    if ws[0] != "" {
      assert s[0] == ws[0][0];
    } else {
      assert s[0] == xs[0].text[0];
    }
  }

  /** Where the first of some spread out tokens stands, and what follows it */
  lemma {:induction false} SpreadParts(text: string, pos: nat, xs: seq<Lexeme>, ws: seq<string>, next: nat)
    requires |xs| == |ws| && xs != [] && OccursAt(text, pos, Spread(xs, ws))
    requires next == pos + |ws[0]| + |xs[0].text|
    ensures OccursAt(text, pos, ws[0]) && OccursAt(text, pos + |ws[0]|, xs[0].text)
    ensures OccursAt(text, next, Spread(xs[1..], ws[1..]))
    ensures next + |Spread(xs[1..], ws[1..])| == pos + |Spread(xs, ws)|
  {
    OccursAppend(text, pos, ws[0] + xs[0].text, Spread(xs[1..], ws[1..]));
    OccursAppend(text, pos, ws[0], xs[0].text);
  }

  /** The first of some spread out tokens, and the others */
  lemma SpreadFirst(text: string, pos: nat, xs: seq<Lexeme>, ws: seq<string>)
    returns (w: string, x: Lexeme, more: seq<Lexeme>, spaces: seq<string>, next: nat)
    requires |xs| == |ws| && xs != [] && AllGenuine(xs) && AllBlank(ws) && OccursAt(text, pos, Spread(xs, ws))
    ensures xs == [x] + more && |more| == |spaces| && AllGenuine(more) && AllBlank(spaces)
    ensures AllWs(w) && OccursAt(text, pos, w) && Genuine(x) && OccursAt(text, pos + |w|, x.text)
    ensures next == pos + |w| + |x.text| && OccursAt(text, next, Spread(more, spaces))
    ensures next + |Spread(more, spaces)| == pos + |Spread(xs, ws)|
  {
    w, x, more, spaces := ws[0], xs[0], xs[1..], ws[1..];
    next := pos + |w| + |x.text|;
    SpreadParts(text, pos, xs, ws, next);
    Tails(xs, ws);
  }

  /** A number ends before the tokens that come after it. */
  lemma NumberEnds(text: string, next: nat, x: Lexeme, more: seq<Lexeme>, spaces: seq<string>)
    requires |more| == |spaces| && AllGenuine(more) && AllBlank(spaces) && Apart([x] + more)
    requires OccursAt(text, next, Spread(more, spaces)) && !NumberChar(At(text, next + |Spread(more, spaces)|))
    ensures x.kind == Number ==> !NumberChar(At(text, next))
  {
    if x.kind == Number && more != [] {
      assert ([x] + more)[1] == more[0];
      SpreadStarts(more, spaces);
      OccursFirst(text, next, Spread(more, spaces));
    }
  }

  lemma AfterCons(text: string, pos: nat, t: Lexed, x: Lexeme, more: seq<Lexeme>)
    requires pos <= |text| && t == NextToken(text, pos) && Real(t.kind) && LexemeAt(text, t) == x
    ensures After(text, pos, [x] + more) == After(text, t.end, more)
  {
    assert ([x] + more)[1..] == more;
  }

  lemma FirstRead(text: string, pos: nat, w: string, x: Lexeme, more: seq<Lexeme>, next: nat)
    requires AllWs(w) && OccursAt(text, pos, w) && Genuine(x) && OccursAt(text, pos + |w|, x.text)
    requires next == pos + |w| + |x.text| && (x.kind == Number ==> !NumberChar(At(text, next)))
    ensures After(text, pos, [x] + more) == After(text, next, more)
  {
    TokenFound(text, pos, w, pos + |w|, x, next);
    AfterCons(text, pos, Lexed(x.kind, pos + |w|, next), x, more);
  }

  lemma Tails(xs: seq<Lexeme>, ws: seq<string>)
    requires |xs| == |ws| && AllGenuine(xs) && AllBlank(ws) && xs != []
    ensures Genuine(xs[0]) && AllWs(ws[0]) && AllGenuine(xs[1..]) && AllBlank(ws[1..])
  {
  }

  lemma {:induction false} ApartRest(x: Lexeme, more: seq<Lexeme>)
    requires Apart([x] + more)
    ensures Apart(more)
  {
    assert ([x] + more)[1..] == more;
  }

  /** Tokens spread out with white space are read back one by one, wherever they stand in a text. */
  lemma {:induction false} SpreadReads(text: string, pos: nat, xs: seq<Lexeme>, ws: seq<string>)
    requires |xs| == |ws| && AllGenuine(xs) && AllBlank(ws) && Apart(xs)
    requires OccursAt(text, pos, Spread(xs, ws)) && !NumberChar(At(text, pos + |Spread(xs, ws)|))
    ensures After(text, pos, xs) == Some(pos + |Spread(xs, ws)|)
    decreases |xs|
  {
    if xs != [] {
      var w, x, more, spaces, next := SpreadFirst(text, pos, xs, ws);
      NumberEnds(text, next, x, more, spaces);
      ApartRest(x, more);
      SpreadReads(text, next, more, spaces);
      FirstRead(text, pos, w, x, more, next);
    }
  }

  /** The next token with the white space before it */
  lemma TokenParts(text: string, pos: nat, t: Lexed) returns (w: string, x: Lexeme)
    requires pos <= |text| && t == NextToken(text, pos) && Real(t.kind)
    ensures AllWs(w) && OccursAt(text, pos, w) && Genuine(x) && OccursAt(text, pos + |w|, x.text)
    ensures t.start == pos + |w| && t.end == t.start + |x.text| && x == LexemeAt(text, t)
  {
    TokenPlace(text, pos);
    w, x := text[pos..t.start], LexemeAt(text, t);
  }

  lemma SpreadCons(text: string, pos: nat, w: string, x: Lexeme, next: nat, more: seq<Lexeme>, spaces: seq<string>)
    requires AllWs(w) && OccursAt(text, pos, w) && Genuine(x) && OccursAt(text, pos + |w|, x.text)
    requires next == pos + |w| + |x.text|
    requires |more| == |spaces| && AllGenuine(more) && AllBlank(spaces) && OccursAt(text, next, Spread(more, spaces))
    ensures AllGenuine([x] + more) && AllBlank([w] + spaces) && OccursAt(text, pos, Spread([x] + more, [w] + spaces))
    ensures pos + |Spread([x] + more, [w] + spaces)| == next + |Spread(more, spaces)|
  {
    assert ([x] + more)[1..] == more && ([w] + spaces)[1..] == spaces;
    OccursAppend(text, pos, w, x.text);
    OccursAppend(text, pos, w + x.text, Spread(more, spaces));
  }

  /** The other way round: where tokens are read, their texts stand with white space between. */
  lemma {:induction false} ReadsSpread(text: string, pos: nat, xs: seq<Lexeme>) returns (ws: seq<string>)
    requires pos <= |text| && After(text, pos, xs).Some?
    ensures |xs| == |ws| && AllGenuine(xs) && AllBlank(ws)
    ensures After(text, pos, xs).value == pos + |Spread(xs, ws)| && OccursAt(text, pos, Spread(xs, ws))
    decreases xs
  {
    if xs == [] {
      ws := [];
    } else {
      var t := NextToken(text, pos);
      var spaces := ReadsSpread(text, t.end, xs[1..]);
      var w, x := TokenParts(text, pos, t);
      SpreadCons(text, pos, w, x, t.end, xs[1..], spaces);
      assert xs == [x] + xs[1..];
      ws := [w] + spaces;
    }
  }

  lemma {:induction false} SpreadAppend(xs: seq<Lexeme>, ws: seq<string>, ys: seq<Lexeme>, us: seq<string>)
    requires |xs| == |ws| && |ys| == |us|
    ensures Spread(xs + ys, ws + us) == Spread(xs, ws) + Spread(ys, us)
    decreases xs
  {
    if xs == [] {
      assert xs + ys == ys && ws + us == us;
    } else {
      SpreadAppend(xs[1..], ws[1..], ys, us);
      assert (xs + ys)[1..] == xs[1..] + ys && (ws + us)[1..] == ws[1..] + us;
      Assoc(ws[0] + xs[0].text, Spread(xs[1..], ws[1..]), Spread(ys, us));
    }
  }

  /** The texts of tokens, one after the other */
  function Concat(xs: seq<Lexeme>): string
  {
    if xs == [] then "" else xs[0].text + Concat(xs[1..])
  }

  lemma {:induction false} ConcatAppend(xs: seq<Lexeme>, ys: seq<Lexeme>)
    ensures Concat(xs + ys) == Concat(xs) + Concat(ys)
    decreases xs
  {
    if xs == [] {
      assert xs + ys == ys;
    } else {
      ConcatAppend(xs[1..], ys);
      assert (xs + ys)[1..] == xs[1..] + ys;
      Assoc(xs[0].text, Concat(xs[1..]), Concat(ys));
    }
  }

  function NoSpace(n: nat): (ws: seq<string>)
    ensures |ws| == n && AllBlank(ws)
  {
    seq(n, i => "")
  }

  lemma {:induction false} ConcatIsSpread(xs: seq<Lexeme>)
    ensures Spread(xs, NoSpace(|xs|)) == Concat(xs)
  {
    if xs != [] {
      ConcatIsSpread(xs[1..]);
      assert NoSpace(|xs|)[1..] == NoSpace(|xs[1..]|);
    }
  }

  /** Token texts written without white space are read back. */
  lemma {:induction false} ConcatReads(text: string, pos: nat, xs: seq<Lexeme>)
    requires AllGenuine(xs) && Apart(xs)
    requires OccursAt(text, pos, Concat(xs)) && !NumberChar(At(text, pos + |Concat(xs)|))
    ensures After(text, pos, xs) == Some(pos + |Concat(xs)|)
  {
    ConcatIsSpread(xs);
    SpreadReads(text, pos, xs, NoSpace(|xs|));
  }

  lemma ApartCons(x: Lexeme, ys: seq<Lexeme>)
    requires Apart(ys) && (ys != [] ==> !(ScalarKind(x.kind) && ScalarKind(ys[0].kind)))
    ensures Apart([x] + ys)
  {
    assert ([x] + ys)[1..] == ys;
  }

  lemma {:induction false} ApartAppend(xs: seq<Lexeme>, ys: seq<Lexeme>)
    requires Apart(xs) && Apart(ys)
    requires xs != [] && ys != [] ==> !(ScalarKind(xs[|xs| - 1].kind) && ScalarKind(ys[0].kind))
    ensures Apart(xs + ys)
    decreases xs
  {
    if xs == [] {
      assert xs + ys == ys;
    } else {
      var rest := xs[1..];
      ApartAppend(rest, ys);
      assert xs == [xs[0]] + rest;
      Assoc([xs[0]], rest, ys);
      ApartCons(xs[0], rest + ys);
    }
  }

  // ---- All tokens of a text ----

  /** Tokens that are read are among them. */
  lemma {:induction false} TokensAfter(text: string, pos: nat, xs: seq<Lexeme>)
    requires pos <= |text| && After(text, pos, xs).Some?
    ensures Tokens(text, pos) == xs + Tokens(text, After(text, pos, xs).value)
    decreases xs
  {
    if xs == [] {
      assert xs + Tokens(text, pos) == Tokens(text, pos);
    } else {
      var t := NextToken(text, pos);
      TokensAfter(text, t.end, xs[1..]);
      TokensCons(xs, Tokens(text, t.end), Tokens(text, After(text, pos, xs).value));
    }
  }

  lemma TokensCons(xs: seq<Lexeme>, ys: seq<Lexeme>, rest: seq<Lexeme>)
    requires xs != [] && ys == xs[1..] + rest
    ensures [xs[0]] + ys == xs + rest
  {
  }

  /** Tokens that are read up to the end are all there are. */
  lemma {:induction false} AllTokens(text: string, pos: nat, xs: seq<Lexeme>, end: nat)
    requires pos <= |text| && After(text, pos, xs) == Some(end) && NextToken(text, end).kind == End
    ensures Tokens(text, pos) == xs
  {
    TokensAfter(text, pos, xs);
    assert xs + [] == xs;
  }

  lemma {:induction false} TokensToEnd(text: string, pos: nat, xs: seq<Lexeme>)
    requires pos <= |text| && After(text, pos, xs) == Some(|text|)
    ensures Tokens(text, pos) == xs
  {
    EndOfText(text);
    AllTokens(text, pos, xs, |text|);
  }
}
