/** The pretty printer of sjson.c. */
module JsonPretty {
  import opened Wrappers
  import opened JsonLexer
  import opened JsonTokens
  import opened JsonGrammar

  // ---- The layout ----

  function Tabs(n: nat): (s: string)
    ensures AllWs(s)
  {
    seq(n, i => '\t')
  }

  /** The tokens before which a line ends */
  predicate Dedents(prev: Kind, k: Kind)
  {
    (k == ObjEnd && prev != ObjStart) || (k == ArrayEnd && prev != ArrayStart && prev != ObjEnd)
  }

  /** The opening tokens after which a line starts */
  predicate Indents(k: Kind, next: Kind)
  {
    (k == ObjStart && next != ObjEnd) || (k == ArrayStart && next != ObjStart && next != ArrayEnd)
  }

  /** POP_INDENT: the length is unsigned, so that nothing is taken from an empty indent. */
  function Pop(ind: nat): nat
  {
    if ind == 0 then 0 else ind - 1
  }

  function IndentBefore(prev: Kind, k: Kind, ind: nat): nat
  {
    if Dedents(prev, k) then Pop(ind) else ind
  }

  function IndentAfter(prev: Kind, k: Kind, next: Kind, ind: nat): nat
  {
    if Indents(k, next) then IndentBefore(prev, k, ind) + 1 else IndentBefore(prev, k, ind)
  }

  function SpaceBefore(prev: Kind, k: Kind, ind: nat): (s: string)
    ensures AllWs(s)
  {
    if Dedents(prev, k) then "\n" + Tabs(Pop(ind)) else ""
  }

  function SpaceAfter(prev: Kind, k: Kind, next: Kind, ind: nat): (s: string)
    ensures AllWs(s)
  {
    if Indents(k, next) then "\n" + Tabs(IndentAfter(prev, k, next, ind))
    else if k == Comma then
      if (prev == ObjEnd && next == ObjStart) || (prev == ArrayEnd && next == ArrayStart) then " "
      else "\n" + Tabs(IndentAfter(prev, k, next, ind))
    else if k == Colon then " "
    else ""
  }

  function NextKind(xs: seq<Lexeme>): Kind
  {
    if |xs| > 1 then xs[1].kind else End
  }

  /** Tokens laid out, after a previous token and with some indent */
  function Layout(xs: seq<Lexeme>, prev: Kind, ind: nat): string
    decreases xs
  {
    if xs == [] then ""
    else
      var k, next := xs[0].kind, NextKind(xs);
      SpaceBefore(prev, k, ind) + xs[0].text + SpaceAfter(prev, k, next, ind)
      + Layout(xs[1..], k, IndentAfter(prev, k, next, ind))
  }

  /** A layout is the tokens with white space before each of them, when nothing is put after the last. */
  lemma {:induction false} LayoutIsSpread(w: string, xs: seq<Lexeme>, prev: Kind, ind: nat) returns (ws: seq<string>)
    requires AllWs(w) && xs != []
    requires var k := xs[|xs| - 1].kind; k != ObjStart && k != ArrayStart && k != Comma && k != Colon
    ensures |ws| == |xs| && AllBlank(ws) && w + Layout(xs, prev, ind) == Spread(xs, ws)
    decreases xs
  {
    var k, next := xs[0].kind, NextKind(xs);
    var before, after := SpaceBefore(prev, k, ind), SpaceAfter(prev, k, next, ind);
    var ind2 := IndentAfter(prev, k, next, ind);
    var rest: seq<string> := [];
    if |xs| > 1 {
      rest := LayoutIsSpread(after, xs[1..], k, ind2);
    } else {
      assert after == "" && Layout(xs[1..], k, ind2) == "";
    }
    ws := [w + before] + rest;
    assert ws[1..] == rest;
    LayoutStep(w, before, xs[0].text, after, Layout(xs[1..], k, ind2));
  }

  lemma LayoutStep(w: string, before: string, x: string, after: string, rest: string)
    ensures w + (before + x + after + rest) == (w + before) + x + (after + rest)
  {
  }

  lemma {:induction false} WholeSpreadReads(out: string, xs: seq<Lexeme>, ws: seq<string>)
    requires |xs| == |ws| && AllGenuine(xs) && AllBlank(ws) && Apart(xs) && out == Spread(xs, ws)
    ensures After(out, 0, xs) == Some(|out|)
  {
    assert out[0..|out|] == out;
    SpreadReads(out, 0, xs, ws);
  }

  lemma {:induction false} LayoutReads(xs: seq<Lexeme>, out: string)
    requires xs != [] && AllGenuine(xs) && Apart(xs) && out == Layout(xs, End, 0)
    requires var k := xs[|xs| - 1].kind; k != ObjStart && k != ArrayStart && k != Comma && k != Colon
    ensures After(out, 0, xs) == Some(|out|)
  {
    var ws := LayoutIsSpread("", xs, End, 0);
    assert "" + out == out;
    WholeSpreadReads(out, xs, ws);
  }

  /** The layout of a value reads as the same tokens and is one value of the same grammar. */
  lemma {:induction false} LayoutSpells(v: Value, out: string)
    requires Proper(v) && AllGenuine(Flat(v)) && out == Layout(Flat(v), End, 0)
    ensures Spells(out, 0, v, |out|) && IsJson(out)
  {
    FlatEnds(v);
    FlatApart(v);
    LayoutReads(Flat(v), out);
    WholeSpelled(out, v);
  }

  // ---- Isolating the leading value ----

  lemma BlankTail(ws: seq<string>)
    requires ws != [] && AllBlank(ws)
    ensures AllBlank([""] + ws[1..])
  {
    forall i | 0 <= i < |ws| ensures AllWs(([""] + ws[1..])[i]) {
      if i > 0 {
        assert ([""] + ws[1..])[i] == ws[i];
      }
    }
  }

  lemma {:induction false} SpreadTail(text: string, xs: seq<Lexeme>, ws: seq<string>, start: nat, end: nat)
    requires |xs| == |ws| && xs != [] && AllBlank(ws) && OccursAt(text, 0, Spread(xs, ws))
    requires start == |ws[0]| && end == |Spread(xs, ws)|
    ensures AllBlank([""] + ws[1..]) && start <= end <= |text| && text[start..end] == Spread(xs, [""] + ws[1..])
  {
    BlankTail(ws);
    hide AllWs, AllBlank;
    var us := [""] + ws[1..];
    assert us[1..] == ws[1..];
    var rest := xs[0].text + Spread(xs[1..], ws[1..]);
    Assoc(ws[0], xs[0].text, Spread(xs[1..], ws[1..]));
    OccursAppend(text, 0, ws[0], rest);
  }

  lemma {:induction false} FirstSpread(text: string, xs: seq<Lexeme>, ws: seq<string>)
    requires |xs| == |ws| && xs != [] && AllGenuine(xs) && AllBlank(ws)
    requires After(text, 0, xs).Some? && OccursAt(text, 0, Spread(xs, ws))
    ensures NextToken(text, 0).start == |ws[0]|
  {
    var rest := Spread(xs[1..], ws[1..]);
    OccursAppend(text, 0, ws[0] + xs[0].text, rest);
    OccursAppend(text, 0, ws[0], xs[0].text);
    FirstStarts(text, ws[0], xs[0]);
  }

  lemma IsolatedReads(text: string, xs: seq<Lexeme>, end: nat) returns (ws: seq<string>)
    requires xs != [] && After(text, 0, xs) == Some(end)
    ensures |ws| == |xs| && AllGenuine(xs) && AllBlank(ws)
    ensures NextToken(text, 0).start <= end <= |text| && text[NextToken(text, 0).start..end] == Spread(xs, ws)
  {
    var us := ReadsSpread(text, 0, xs);
    FirstSpread(text, xs, us);
    SpreadTail(text, xs, us, |us[0]|, end);
    ws := [""] + us[1..];
  }

  /** The leading value, isolated, has the same tokens. */
  lemma IsolatedSpells(text: string, v: Value, end: nat)
    requires Spells(text, 0, v, end)
    ensures ValueText(text).Some? && Spells(ValueText(text).value, 0, v, |ValueText(text).value|)
  {
    ValueComplete(text, 0, v, end);
    FlatApart(v);
    var ws := IsolatedReads(text, Flat(v), end);
    WholeSpreadReads(ValueText(text).value, Flat(v), ws);
  }

  /** White space up to a character that is none can end at one place only. */
  lemma FirstSolid(text: string, a: nat, b: nat)
    requires a < |text| && b < |text| && AllWs(text[0..a]) && AllWs(text[0..b]) && !WsChar(text[a]) && !WsChar(text[b])
    ensures a == b
  {
    forall i | 0 <= i < a ensures WsChar(text[i]) {
      assert text[0..a][i] == text[i];
    }
    forall i | 0 <= i < b ensures WsChar(text[i]) {
      assert text[0..b][i] == text[i];
    }
  }

  /** Where the first token starts when white space and its text stand at the front */
  lemma {:induction false} FirstStarts(text: string, w: string, x: Lexeme)
    requires OccursAt(text, 0, w) && AllWs(w) && OccursAt(text, |w|, x.text) && Genuine(x)
    requires Real(NextToken(text, 0).kind) && LexemeAt(text, NextToken(text, 0)) == x
    ensures NextToken(text, 0).start == |w|
  {
    var t := NextToken(text, 0);
    TokenPlace(text, 0);
    GenuineStarts(x);
    OccursFirst(text, |w|, x.text);
    assert text[t.start] == x.text[0];
    FirstSolid(text, t.start, |w|);
  }

  // ---- The printer ----

  /** What pretty printing gives: nothing without a leading value, otherwise its layout */
  function Prettied(text: string): Option<string>
  {
    var valid := ValueText(text);
    if valid.None? then None else Some(Layout(Tokens(valid.value, 0), End, 0))
  }

  /** `s_json_pretty` */
  method Pretty(text: string) returns (r: Option<string>)
    ensures r == Prettied(text)
  {
    var jsonValid := Get(text);
    if jsonValid.None? {
      return None;
    }
    ghost var v := ValueSound(text, 0);
    ghost var xs := Flat(v);
    IsolatedSpells(text, v, ValueEnd(text, 0).value);
    TokensToEnd(jsonValid.value, 0, xs);
    var str := PrettyLoop(jsonValid.value, xs);
    return Some(str);
  }

  lemma {:induction false} NextIsKind(text: string, end: nat, xs: seq<Lexeme>)
    requires end <= |text| && After(text, end, xs) == Some(|text|)
    ensures NextToken(text, end).kind == if xs == [] then End else xs[0].kind
  {
    if xs == [] {
      EndOfText(text);
    }
  }

  /** The loop of `s_json_pretty` over the tokens */
  method PrettyLoop(valid: string, ghost xs: seq<Lexeme>) returns (str: string)
    requires After(valid, 0, xs) == Some(|valid|)
    ensures str == Layout(xs, End, 0)
  {
    str := "";
    var ind: nat, prev, start: nat := 0, End, 0;
    ghost var rest := xs;
    while true
      invariant start <= |valid| && 0 <= ind
      invariant After(valid, start, rest) == Some(|valid|)
      invariant Layout(xs, End, 0) == str + Layout(rest, prev, ind)
      decreases |rest|
    {
      NextIsKind(valid, start, rest);
      var t := GetToken(valid, start);
      if t.kind == End {
        RestEmpty(valid, start, rest);
        break;
      }
      NextIsKind(valid, t.end, rest[1..]);
      var next := GetToken(valid, t.end);
      var part, ind2 := PrettyToken(valid[t.start..t.end], prev, t.kind, next.kind, ind);
      Assoc(str, part, Layout(rest[1..], t.kind, ind2));
      str, ind := str + part, ind2;
      prev, start, rest := t.kind, t.end, rest[1..];
    }
  }

  lemma {:induction false} RestEmpty(text: string, start: nat, rest: seq<Lexeme>)
    requires start <= |text| && After(text, start, rest).Some? && NextToken(text, start).kind == End
    ensures rest == []
  {
  }

  /** The start of a round: a line break before a closing token, with one indent less */
  method PrettyBefore(prev: Kind, token: Kind, ind0: nat) returns (space: string, ind: nat)
    ensures space == SpaceBefore(prev, token, ind0) && ind == IndentBefore(prev, token, ind0)
  {
    space, ind := "", ind0;
    if (token == ObjEnd && prev != ObjStart) || (token == ArrayEnd && prev != ArrayStart && prev != ObjEnd) {
      ind := if ind > 0 then ind - 1 else ind;
      space := "\n" + Tabs(ind);
    }
  }

  /** The end of a round: a line break or a space after the token */
  method PrettyAfter(prev: Kind, token: Kind, next: Kind, ghost ind0: nat, ind1: nat) returns (space: string, ind: nat)
    requires ind1 == IndentBefore(prev, token, ind0)
    ensures space == SpaceAfter(prev, token, next, ind0) && ind == IndentAfter(prev, token, next, ind0)
  {
    space, ind := "", ind1;
    if (token == ObjStart && next != ObjEnd) || (token == ArrayStart && next != ObjStart && next != ArrayEnd) {
      ind := ind + 1;
      space := "\n" + Tabs(ind);
    } else if token == Comma {
      if (prev == ObjEnd && next == ObjStart) || (prev == ArrayEnd && next == ArrayStart) {
        space := " ";
      } else {
        space := "\n" + Tabs(ind);
      }
    } else if token == Colon {
      space := " ";
    }
  }

  /** One round of the loop: what is written for a token */
  method PrettyToken(x: string, prev: Kind, token: Kind, next: Kind, ind0: nat) returns (str: string, ind: nat)
    ensures str == SpaceBefore(prev, token, ind0) + x + SpaceAfter(prev, token, next, ind0)
    ensures ind == IndentAfter(prev, token, next, ind0)
  {
    var before, ind1 := PrettyBefore(prev, token, ind0);
    var after, ind2 := PrettyAfter(prev, token, next, ind0, ind1);
    str, ind := before + x + after, ind2;
  }

  /** The output for a leading value has the same tokens, is valid, and is left as it is by printing again. */
  lemma {:induction false} PrettyKeepsMeaning(text: string, v: Value, end: nat)
    requires Spells(text, 0, v, end)
    ensures Prettied(text).Some?
    ensures var out := Prettied(text).value;
      Tokens(out, 0) == Flat(v) && Spells(out, 0, v, |out|) && IsJson(out) && Prettied(out) == Some(out)
  {
    var xs := Flat(v);
    IsolatedSpells(text, v, end);
    TokensToEnd(ValueText(text).value, 0, xs);
    var out := Layout(xs, End, 0);
    var ws := ReadsSpread(text, 0, xs);
    LayoutSpells(v, out);
    TokensToEnd(out, 0, xs);
    IsolatedSpells(out, v, |out|);
    TokensToEnd(ValueText(out).value, 0, xs);
  }

  /** There is no output exactly when the text does not start with a value. */
  lemma PrettyFails(text: string)
    ensures Prettied(text).None? <==> !exists v, e: nat :: Spells(text, 0, v, e)
  {
    if Prettied(text).Some? {
      ValidExactly(text, 0, ValueEnd(text, 0).value);
    } else if v: Value, e: nat :| Spells(text, 0, v, e) {
      ValueComplete(text, 0, v, e);
    }
  }

  // ---- The layout as a tree ----

  /** In every array that is not empty, both the first and the last item are objects, or neither is. */
  predicate Even(v: Value)
  {
    match v
    case Scalar(_) => true
    case Array(items) =>
      && (items != [] ==> (items[0].Object? <==> items[|items| - 1].Object?))
      && forall i | 0 <= i < |items| :: Even(items[i])
    case Object(members) => forall i | 0 <= i < |members| :: Even(members[i].value)
  }

  function FirstKind(v: Value): Kind
  {
    match v case Scalar(x) => x.kind case Array(_) => ArrayStart case Object(_) => ObjStart
  }

  function LastKind(v: Value): Kind
  {
    match v case Scalar(x) => x.kind case Array(_) => ArrayEnd case Object(_) => ObjEnd
  }

  function Line(depth: nat): string
  {
    "\n" + Tabs(depth)
  }

  /** A value at a depth: members on lines of their own, one deeper; items as well, but arrays that start with an
      object keep the depth, and an object after an object or an array after an array stays on the line. */
  function Tree(v: Value, depth: nat): string
    decreases v, 0
  {
    match v
    case Scalar(x) => x.text
    case Array(items) =>
      if items == [] then "[]"
      else if items[0].Object? then "[" + TreeItems(items, depth) + "]"
      else "[" + (Line(depth + 1) + TreeItems(items, depth + 1)) + (Line(depth) + "]")
    case Object(members) =>
      if members == [] then "{}"
      else "{" + (Line(depth + 1) + TreeMembers(members, depth + 1)) + (Line(depth) + "}")
  }

  function ItemSpace(v: Value, w: Value, depth: nat): string
  {
    if (v.Object? && w.Object?) || (v.Array? && w.Array?) then " " else Line(depth)
  }

  function TreeItems(items: seq<Value>, depth: nat): string
    decreases items
  {
    if items == [] then ""
    else if |items| == 1 then Tree(items[0], depth)
    else Tree(items[0], depth) + ("," + ItemSpace(items[0], items[1], depth)) + TreeItems(items[1..], depth)
  }

  function TreeMember(m: Member, depth: nat): string
    decreases m, 1
  {
    m.key.text + ": " + Tree(m.value, depth)
  }

  function TreeMembers(members: seq<Member>, depth: nat): string
    decreases members
  {
    if members == [] then ""
    else if |members| == 1 then TreeMember(members[0], depth)
    else TreeMember(members[0], depth) + ("," + Line(depth)) + TreeMembers(members[1..], depth)
  }

  /** What is laid out for one token in front of others */
  lemma LayoutOne(x: Lexeme, rest: seq<Lexeme>, prev: Kind, ind: nat)
    ensures var next := NextKind([x] + rest);
      Layout([x] + rest, prev, ind) == SpaceBefore(prev, x.kind, ind) + x.text + SpaceAfter(prev, x.kind, next, ind)
        + Layout(rest, x.kind, IndentAfter(prev, x.kind, next, ind))
  {
    assert ([x] + rest)[1..] == rest;
  }

  /** A token without white space around it */
  lemma LayoutBare(x: Lexeme, rest: seq<Lexeme>, prev: Kind, ind: nat)
    requires !Dedents(prev, x.kind) && !Indents(x.kind, NextKind([x] + rest)) && x.kind != Comma && x.kind != Colon
    ensures Layout([x] + rest, prev, ind) == x.text + Layout(rest, x.kind, ind)
  {
    LayoutOne(x, rest, prev, ind);
    assert "" + x.text + "" == x.text;
  }

  /** A closing token on a line of its own, one depth less */
  lemma LayoutClose(x: Lexeme, rest: seq<Lexeme>, prev: Kind, ind: nat)
    requires Dedents(prev, x.kind)
    ensures Layout([x] + rest, prev, ind) == (Line(Pop(ind)) + x.text) + Layout(rest, x.kind, Pop(ind))
  {
    LayoutOne(x, rest, prev, ind);
    assert Line(Pop(ind)) + x.text + "" == Line(Pop(ind)) + x.text;
  }

  /** An opening token before a line that is one deeper */
  lemma LayoutOpen(x: Lexeme, rest: seq<Lexeme>, prev: Kind, depth: nat)
    requires Indents(x.kind, NextKind([x] + rest))
    ensures Layout([x] + rest, prev, depth) == x.text + Line(depth + 1) + Layout(rest, x.kind, depth + 1)
  {
    LayoutOne(x, rest, prev, depth);
    assert "" + x.text == x.text;
  }

  lemma FlatFirst(v: Value, rest: seq<Lexeme>)
    ensures (Flat(v) + rest)[0].kind == FirstKind(v)
  {
  }

  /** Laying out the tokens of a value, whatever follows, is laying out its tree; the depth is what it was. */
  lemma {:induction false} LayoutTree(v: Value, rest: seq<Lexeme>, prev: Kind, depth: nat)
    requires Proper(v) && Even(v)
    ensures Layout(Flat(v) + rest, prev, depth) == Tree(v, depth) + Layout(rest, LastKind(v), depth)
    decreases v, 1
  {
    match v
    case Scalar(x) => LayoutBare(x, rest, prev, depth);
    case Array(items) =>
      assert Flat(v) + rest == [Mark(ArrayStart)] + (FlatItems(items, false) + rest);
      LayoutArray(items, rest, prev, depth);
    case Object(members) =>
      assert Flat(v) + rest == [Mark(ObjStart)] + (FlatMembers(members, false) + rest);
      LayoutObject(members, rest, prev, depth);
  }

  lemma EvenItems(items: seq<Value>)
    requires Proper(Array(items)) && Even(Array(items))
    ensures forall i | 0 <= i < |items| :: Proper(items[i]) && Even(items[i])
    ensures items != [] ==> (items[0].Object? <==> items[|items| - 1].Object?)
    ensures items != [] ==> LastKind(items[|items| - 1]) != ArrayStart
    ensures items != [] ==> (FirstKind(items[0]) == ObjStart <==> items[0].Object?)
    ensures items != [] ==> (LastKind(items[|items| - 1]) == ObjEnd <==> items[|items| - 1].Object?)
    ensures items != [] ==> FirstKind(items[0]) != ArrayEnd
  {
  }

  lemma {:induction false} LayoutArray(items: seq<Value>, rest: seq<Lexeme>, prev: Kind, depth: nat)
    requires Proper(Array(items)) && Even(Array(items))
    ensures Layout([Mark(ArrayStart)] + (FlatItems(items, false) + rest), prev, depth)
      == Tree(Array(items), depth) + Layout(rest, ArrayEnd, depth)
    decreases items, 3
  {
    if items == [] {
      LayoutEmpty(ArrayStart, ArrayEnd, rest, prev, depth);
      EndOfItems(items, false, rest);
    } else if items[0].Object? {
      LayoutInline(items, rest, prev, depth);
    } else {
      LayoutNested(items, rest, prev, depth);
    }
  }

  lemma {:induction false} LayoutInline(items: seq<Value>, rest: seq<Lexeme>, prev: Kind, depth: nat)
    requires Proper(Array(items)) && Even(Array(items)) && items != [] && items[0].Object?
    ensures Layout([Mark(ArrayStart)] + (FlatItems(items, false) + rest), prev, depth)
      == "[" + TreeItems(items, depth) + "]" + Layout(rest, ArrayEnd, depth)
    decreases items, 2
  {
    EvenItems(items);
    FirstOfItems(items, rest);
    LayoutItems(items, rest, ArrayStart, depth);
    hide Layout, Flat, FlatItems, TreeItems;
    var last := LastKind(items[|items| - 1]);
    ArrayInline(FlatItems(items, false) + rest, TreeItems(items, depth), rest, prev, last, depth);
  }

  lemma {:induction false} LayoutNested(items: seq<Value>, rest: seq<Lexeme>, prev: Kind, depth: nat)
    requires Proper(Array(items)) && Even(Array(items)) && items != [] && !items[0].Object?
    ensures Layout([Mark(ArrayStart)] + (FlatItems(items, false) + rest), prev, depth)
      == "[" + (Line(depth + 1) + TreeItems(items, depth + 1)) + (Line(depth) + "]") + Layout(rest, ArrayEnd, depth)
    decreases items, 2
  {
    EvenItems(items);
    FirstOfItems(items, rest);
    LayoutItems(items, rest, ArrayStart, depth + 1);
    hide Layout, Flat, FlatItems, TreeItems, Line;
    ArrayNested(FlatItems(items, false) + rest, TreeItems(items, depth + 1), rest, prev, LastKind(items[|items| - 1]),
                depth);
  }

  /** The brackets around the items of an array that starts and ends with an object */
  lemma ArrayInline(inner: seq<Lexeme>, body: string, rest: seq<Lexeme>, prev: Kind, last: Kind, depth: nat)
    requires NextKind([Mark(ArrayStart)] + inner) == ObjStart && last == ObjEnd
    requires Layout(inner, ArrayStart, depth) == body + Layout([Mark(ArrayEnd)] + rest, last, depth)
    ensures Layout([Mark(ArrayStart)] + inner, prev, depth) == "[" + body + "]" + Layout(rest, ArrayEnd, depth)
  {
    LayoutBare(Mark(ArrayStart), inner, prev, depth);
    LayoutBare(Mark(ArrayEnd), rest, last, depth);
    hide Layout;
    JoinFour("[", body, "]", Layout(rest, ArrayEnd, depth));
  }

  /** The brackets around the items of another array */
  lemma ArrayNested(inner: seq<Lexeme>, body: string, rest: seq<Lexeme>, prev: Kind, last: Kind, depth: nat)
    requires NextKind([Mark(ArrayStart)] + inner) !in {ObjStart, ArrayEnd} && last !in {ArrayStart, ObjEnd}
    requires Layout(inner, ArrayStart, depth + 1) == body + Layout([Mark(ArrayEnd)] + rest, last, depth + 1)
    ensures Layout([Mark(ArrayStart)] + inner, prev, depth)
      == "[" + (Line(depth + 1) + body) + (Line(depth) + "]") + Layout(rest, ArrayEnd, depth)
  {
    LayoutOpen(Mark(ArrayStart), inner, prev, depth);
    LayoutClose(Mark(ArrayEnd), rest, last, depth + 1);
    hide Layout, Line;
    JoinFive("[", Line(depth + 1), body, Line(depth) + "]", Layout(rest, ArrayEnd, depth));
  }

  /** The braces around the members of an object */
  lemma ObjectAround(inner: seq<Lexeme>, body: string, rest: seq<Lexeme>, prev: Kind, last: Kind, depth: nat)
    requires NextKind([Mark(ObjStart)] + inner) != ObjEnd && last != ObjStart
    requires Layout(inner, ObjStart, depth + 1) == body + Layout([Mark(ObjEnd)] + rest, last, depth + 1)
    ensures Layout([Mark(ObjStart)] + inner, prev, depth)
      == "{" + (Line(depth + 1) + body) + (Line(depth) + "}") + Layout(rest, ObjEnd, depth)
  {
    LayoutOpen(Mark(ObjStart), inner, prev, depth);
    LayoutClose(Mark(ObjEnd), rest, last, depth + 1);
    hide Layout, Line;
    JoinFive("{", Line(depth + 1), body, Line(depth) + "}", Layout(rest, ObjEnd, depth));
  }

  lemma LayoutEmpty(open: Kind, close: Kind, rest: seq<Lexeme>, prev: Kind, depth: nat)
    requires (open == ArrayStart && close == ArrayEnd) || (open == ObjStart && close == ObjEnd)
    ensures Layout([Mark(open)] + ([Mark(close)] + rest), prev, depth)
      == Mark(open).text + Mark(close).text + Layout(rest, close, depth)
  {
    LayoutBare(Mark(open), [Mark(close)] + rest, prev, depth);
    LayoutBare(Mark(close), rest, open, depth);
    Assoc(Mark(open).text, Mark(close).text, Layout(rest, close, depth));
  }

  lemma JoinFour(a: string, b: string, c: string, d: string)
    ensures a + (b + (c + d)) == a + b + c + d
  {
  }

  lemma JoinFive(a: string, b: string, c: string, d: string, e: string)
    ensures a + b + (c + (d + e)) == a + (b + c) + d + e
  {
  }

  lemma FirstOfItems(items: seq<Value>, rest: seq<Lexeme>)
    requires items != []
    ensures NextKind([Mark(ArrayStart)] + (FlatItems(items, false) + rest)) == FirstKind(items[0])
    ensures FlatItems(items, false) + rest == Flat(items[0]) + (FlatItems(items[1..], true) + rest)
  {
    assert FlatItems(items, false) == Flat(items[0]) + FlatItems(items[1..], true);
    FlatFirst(items[0], FlatItems(items[1..], true) + rest);
  }

  /** A comma between two items */
  lemma LayoutComma(v: Value, w: Value, tail: seq<Lexeme>, depth: nat)
    requires Proper(v) && Proper(w) && tail != [] && tail[0].kind == FirstKind(w)
    ensures Layout([Mark(Comma)] + tail, LastKind(v), depth)
      == ("," + ItemSpace(v, w, depth)) + Layout(tail, Comma, depth)
  {
    LayoutOne(Mark(Comma), tail, LastKind(v), depth);
    assert "" + "," == ",";
  }

  /** The items of an array, up to its closing bracket */
  lemma {:induction false} LayoutItems(items: seq<Value>, rest: seq<Lexeme>, prev: Kind, depth: nat)
    requires items != [] && forall i | 0 <= i < |items| :: Proper(items[i]) && Even(items[i])
    ensures Layout(FlatItems(items, false) + rest, prev, depth)
      == TreeItems(items, depth) + Layout([Mark(ArrayEnd)] + rest, LastKind(items[|items| - 1]), depth)
    decreases items, 1
  {
    hide Layout, Flat, FlatItems, Tree, ItemSpace, FirstKind, LastKind;
    var more := FlatItems(items[1..], true) + rest;
    FirstOfItems(items, rest);
    LayoutTree(items[0], more, prev, depth);
    if |items| == 1 {
      EndOfItems(items[1..], true, rest);
      assert TreeItems(items, depth) == Tree(items[0], depth);
    } else {
      var tail := FlatItems(items[1..], false) + rest;
      CommaItems(items[1..], rest);
      FirstOfItems(items[1..], rest);
      FlatFirst(items[1], FlatItems(items[1..][1..], true) + rest);
      LayoutComma(items[0], items[1], tail, depth);
      LayoutItems(items[1..], rest, Comma, depth);
      JoinItems(Tree(items[0], depth), "," + ItemSpace(items[0], items[1], depth), TreeItems(items[1..], depth),
                Layout([Mark(ArrayEnd)] + rest, LastKind(items[|items| - 1]), depth));
    }
  }

  lemma EndOfItems(items: seq<Value>, comma: bool, rest: seq<Lexeme>)
    requires items == []
    ensures FlatItems(items, comma) + rest == [Mark(ArrayEnd)] + rest
  {
  }

  lemma CommaItems(items: seq<Value>, rest: seq<Lexeme>)
    requires items != []
    ensures FlatItems(items, true) + rest == [Mark(Comma)] + (FlatItems(items, false) + rest)
  {
    assert FlatItems(items, true) == [Mark(Comma)] + (Flat(items[0]) + FlatItems(items[1..], true));
    assert FlatItems(items, false) == Flat(items[0]) + FlatItems(items[1..], true);
  }

  lemma JoinItems(a: string, sep: string, b: string, c: string)
    ensures a + (sep + (b + c)) == a + sep + b + c
  {
  }

  lemma EvenMembers(members: seq<Member>)
    requires Proper(Object(members)) && Even(Object(members))
    ensures ProperMembers(members) && forall i | 0 <= i < |members| :: Even(members[i].value)
    ensures members != [] ==> members[0].key.kind != ObjEnd && LastKind(members[|members| - 1].value) != ObjStart
  {
  }

  lemma {:induction false} LayoutObject(members: seq<Member>, rest: seq<Lexeme>, prev: Kind, depth: nat)
    requires Proper(Object(members)) && Even(Object(members))
    ensures Layout([Mark(ObjStart)] + (FlatMembers(members, false) + rest), prev, depth)
      == Tree(Object(members), depth) + Layout(rest, ObjEnd, depth)
    decreases members, 3
  {
    if members == [] {
      LayoutEmpty(ObjStart, ObjEnd, rest, prev, depth);
      EndOfMembers(members, false, rest);
    } else {
      LayoutFilled(members, rest, prev, depth);
    }
  }

  lemma {:induction false} LayoutFilled(members: seq<Member>, rest: seq<Lexeme>, prev: Kind, depth: nat)
    requires Proper(Object(members)) && Even(Object(members)) && members != []
    ensures Layout([Mark(ObjStart)] + (FlatMembers(members, false) + rest), prev, depth)
      == "{" + (Line(depth + 1) + TreeMembers(members, depth + 1)) + (Line(depth) + "}") + Layout(rest, ObjEnd, depth)
    decreases members, 2
  {
    EvenMembers(members);
    FirstOfMembers(members, rest);
    LayoutMembers(members, rest, ObjStart, depth + 1);
    hide Layout, Flat, FlatMembers, TreeMembers, Line;
    ObjectAround(FlatMembers(members, false) + rest, TreeMembers(members, depth + 1), rest, prev,
                 LastKind(members[|members| - 1].value), depth);
  }

  lemma FirstOfMembers(members: seq<Member>, rest: seq<Lexeme>)
    requires members != []
    ensures NextKind([Mark(ObjStart)] + (FlatMembers(members, false) + rest)) == members[0].key.kind
    ensures FlatMembers(members, false) + rest
      == [members[0].key] + ([Mark(Colon)] + (Flat(members[0].value) + (FlatMembers(members[1..], true) + rest)))
  {
    hide Flat;
    var m := members[0];
    assert FlatMembers(members, false) == [] + (FlatMember(m) + FlatMembers(members[1..], true));
    Regroup(m.key, Mark(Colon), Flat(m.value), FlatMembers(members[1..], true), rest);
  }

  lemma Regroup(a: Lexeme, b: Lexeme, c: seq<Lexeme>, d: seq<Lexeme>, e: seq<Lexeme>)
    ensures ([] + (([a, b] + c) + d)) + e == [a] + ([b] + (c + (d + e)))
  {
  }

  lemma EndOfMembers(members: seq<Member>, comma: bool, rest: seq<Lexeme>)
    requires members == []
    ensures FlatMembers(members, comma) + rest == [Mark(ObjEnd)] + rest
  {
  }

  /** A comma between two members */
  lemma LayoutMemberComma(v: Value, tail: seq<Lexeme>, depth: nat)
    requires Proper(v) && tail != [] && StringKind(tail[0].kind)
    ensures Layout([Mark(Comma)] + tail, LastKind(v), depth) == ("," + Line(depth)) + Layout(tail, Comma, depth)
  {
    LayoutOne(Mark(Comma), tail, LastKind(v), depth);
    assert "" + "," == ",";
  }

  /** The members of an object, up to its closing bracket */
  lemma {:induction false} LayoutMembers(members: seq<Member>, rest: seq<Lexeme>, prev: Kind, depth: nat)
    requires members != [] && ProperMembers(members) && forall i | 0 <= i < |members| :: Even(members[i].value)
    ensures Layout(FlatMembers(members, false) + rest, prev, depth)
      == TreeMembers(members, depth) + Layout([Mark(ObjEnd)] + rest, LastKind(members[|members| - 1].value), depth)
    decreases members, 1
  {
    hide Layout, Flat, FlatMembers, FlatMember, Tabs, Tree, TreeMember, FirstKind, Line;
    var more := FlatMembers(members[1..], true) + rest;
    FirstOfMembers(members, rest);
    LayoutMember(members[0], more, prev, depth);
    if |members| == 1 {
      EndOfMembers(members[1..], true, rest);
      assert TreeMembers(members, depth) == TreeMember(members[0], depth);
    } else {
      var tail := FlatMembers(members[1..], false) + rest;
      CommaMembers(members[1..], rest);
      FirstOfMembers(members[1..], rest);
      LayoutMemberComma(members[0].value, tail, depth);
      LayoutMembers(members[1..], rest, Comma, depth);
      JoinItems(TreeMember(members[0], depth), "," + Line(depth), TreeMembers(members[1..], depth),
                Layout([Mark(ObjEnd)] + rest, LastKind(members[|members| - 1].value), depth));
    }
  }

  lemma CommaMembers(members: seq<Member>, rest: seq<Lexeme>)
    requires members != []
    ensures FlatMembers(members, true) + rest == [Mark(Comma)] + (FlatMembers(members, false) + rest)
  {
    assert FlatMembers(members, true) == [Mark(Comma)] + (FlatMember(members[0]) + FlatMembers(members[1..], true));
    assert FlatMembers(members, false) == FlatMember(members[0]) + FlatMembers(members[1..], true);
  }

  lemma {:induction false} LayoutMember(m: Member, rest: seq<Lexeme>, prev: Kind, depth: nat)
    requires StringKind(m.key.kind) && Proper(m.value) && Even(m.value)
    ensures Layout([m.key] + ([Mark(Colon)] + (Flat(m.value) + rest)), prev, depth)
      == TreeMember(m, depth) + Layout(rest, LastKind(m.value), depth)
    decreases m, 2
  {
    var colon, more := Mark(Colon), Flat(m.value) + rest;
    LayoutBare(m.key, [colon] + more, prev, depth);
    LayoutOne(colon, more, m.key.kind, depth);
    LayoutTree(m.value, rest, Colon, depth);
    JoinMember(m.key.text, Tree(m.value, depth), Layout(rest, LastKind(m.value), depth));
  }

  lemma JoinMember(key: string, a: string, b: string)
    ensures key + ("" + ":" + " " + (a + b)) == key + ": " + a + b
  {
  }

  lemma EvenSmall(x: Lexeme)
    ensures Even(Scalar(x)) && Even(Array([])) && Even(Object([]))
  {
  }

  /** Of even items, an array is even exactly when there are objects at both ends or at neither. */
  lemma EvenArrays(v: Value, w: Value, items: seq<Value>)
    requires Even(v) && Even(w) && forall i | 0 <= i < |items| :: Even(items[i])
    ensures Even(Array([v] + items + [w])) <==> (v.Object? <==> w.Object?)
  {
    var all := [v] + items + [w];
    forall i | 0 <= i < |all| ensures Even(all[i]) {
      if 0 < i < |all| - 1 {
        assert all[i] == items[i - 1];
      }
    }
  }

  /** Where arrays do not mix objects at one end with other items at the other, printing gives the tree. */
  lemma {:induction false} PrettyIsTree(text: string, v: Value, end: nat)
    requires Spells(text, 0, v, end) && Even(v)
    ensures Prettied(text) == Some(Tree(v, 0))
  {
    IsolatedSpells(text, v, end);
    TokensToEnd(ValueText(text).value, 0, Flat(v));
    LayoutTree(v, [], End, 0);
    assert Flat(v) + [] == Flat(v) && Tree(v, 0) + "" == Tree(v, 0);
  }

  /** An array that starts with an object and ends with something else takes one depth away, down to none. */
  lemma UnevenDrifts(x: Lexeme, rest: seq<Lexeme>, prev: Kind, depth: nat)
    requires ScalarKind(x.kind)
    ensures var v := Array([Object([]), Scalar(x)]);
      && !Even(v)
      && Layout(Flat(v) + rest, prev, depth)
        == "[{}," + Line(depth) + x.text + (Line(Pop(depth)) + "]") + Layout(rest, ArrayEnd, Pop(depth))
  {
    hide Layout, Flat, FlatItems, Line;
    var open, close, first, second := Mark(ArrayStart), Mark(ArrayEnd), Object([]), Scalar(x);
    var last := [close] + rest;
    var tail := [x] + last;
    var more := [Mark(Comma)] + tail;
    UnevenTokens(x, rest);
    FlatFirst(first, more);
    LayoutBare(open, Flat(first) + more, prev, depth);
    LayoutTree(first, more, ArrayStart, depth);
    LayoutComma(first, second, tail, depth);
    LayoutBare(x, last, Comma, depth);
    LayoutClose(close, rest, x.kind, depth);
    assert [first, second][0] == first && [first, second][1] == second;
    JoinUneven(Line(depth), x.text, Line(Pop(depth)), Layout(rest, ArrayEnd, Pop(depth)));
  }

  lemma UnevenTokens(x: Lexeme, rest: seq<Lexeme>)
    ensures Flat(Array([Object([]), Scalar(x)])) + rest
      == [Mark(ArrayStart)] + (Flat(Object([])) + ([Mark(Comma)] + ([x] + ([Mark(ArrayEnd)] + rest))))
  {
    var items := [Object([]), Scalar(x)];
    assert items[1..] == [Scalar(x)] && items[1..][1..] == [];
    assert FlatItems(items[1..], true) == [Mark(Comma)] + ([x] + [Mark(ArrayEnd)]);
    assert FlatItems(items, false) == [] + (Flat(Object([])) + FlatItems(items[1..], true));
  }

  lemma JoinUneven(a: string, x: string, b: string, c: string)
    ensures "[" + ("{}" + (("," + a) + (x + ((b + "]") + c)))) == "[{}," + a + x + (b + "]") + c
  {
  }
}
