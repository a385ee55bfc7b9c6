/** Runs: the longest text from a position that tokens, and white space where a rule has it, cover without gaps. Two
    functions of sjson.c copy such runs; the state of the automaton that finds them is a set of states of the one for
    a single token. */
module JsonRuns {
  import opened Wrappers
  import opened JsonLexer
  import opened JsonTokens

  // ---- Runs ----

  /** A piece of a run: a token, or some white space if the rule has it. White space has no kind of its own; it goes
      under Invalid here. */
  predicate Piece(x: Lexeme, blank: bool)
  {
    Genuine(x) || (blank && x.kind == Invalid && x.text != "" && AllWs(x.text))
  }

  predicate AllPieces(xs: seq<Lexeme>, blank: bool)
  {
    forall i | 0 <= i < |xs| :: Piece(xs[i], blank)
  }

  lemma GenuinePieces(xs: seq<Lexeme>, blank: bool)
    requires AllGenuine(xs)
    ensures AllPieces(xs, blank)
  {
  }

  lemma PiecesGenuine(xs: seq<Lexeme>)
    requires AllPieces(xs, false)
    ensures AllGenuine(xs)
  {
  }

  /** A text that is some pieces one after the other (the rule for a run) */
  ghost predicate IsRun(x: string, blank: bool)
  {
    exists xs :: Covers(xs, x, blank)
  }

  predicate Covers(xs: seq<Lexeme>, x: string, blank: bool)
  {
    xs != [] && AllPieces(xs, blank) && x == Concat(xs)
  }

  /** The automaton accepts a piece. */
  predicate AcceptsPiece(q: State, blank: bool)
  {
    Accepts(q).Some? && match Accepts(q).value case Space => blank case Tok(k) => Real(k)
  }

  function PieceKind(r: Rule): Kind
  {
    match r case Space => Invalid case Tok(k) => k
  }

  /** What the automaton accepts is a piece, and the other way round. */
  lemma {:induction false} PieceAccepted(x: Lexeme, blank: bool)
    requires Piece(x, blank)
    ensures x.text != "" && AcceptsPiece(Run(Start, x.text), blank) && Run(Start, x.text) != Start
  {
    assert Run(Start, "") == Start;
    if !Genuine(x) {
      SpaceFirst(x.text);
    }
  }

  lemma {:induction false} AcceptedPiece(y: string, blank: bool) returns (x: Lexeme)
    requires AcceptsPiece(Run(Start, y), blank)
    ensures x.text == y && Piece(x, blank)
  {
    x := Lexeme(PieceKind(Accepts(Run(Start, y)).value), y);
    if x.kind == Invalid {
      RunDecides(y);
    }
  }

  predicate Accepting(active: set<State>, blank: bool)
  {
    exists q | q in active :: AcceptsPiece(q, blank)
  }

  /** The states after one more character of the token that is being read */
  function StepAll(active: set<State>, c: char): set<State>
  {
    set q | q in active && Step(q, c) != Dead :: Step(q, c)
  }

  /** The states after one more character; where a token can end, a new one can start. */
  function Advanced(active: set<State>, c: char, blank: bool): set<State>
  {
    var next := StepAll(active, c);
    if Accepting(next, blank) then next + {Start} else next
  }

  /** The end of the longest run, from a position with some states and the last end seen */
  function RunFrom(z: string, c: nat, active: set<State>, best: Option<nat>, blank: bool): Option<nat>
    requires c <= |z|
    decreases |z| - c, 1
  {
    if active == {} || c == |z| then best else RunPast(z, c, active, best, blank)
  }

  function RunPast(z: string, c: nat, active: set<State>, best: Option<nat>, blank: bool): Option<nat>
    requires c < |z|
    decreases |z| - c, 0
  {
    RunFrom(z, c + 1, Advanced(active, z[c], blank),
            if Accepting(StepAll(active, z[c]), blank) then Some(c + 1) else best, blank)
  }

  function RunEnd(z: string, s: nat, blank: bool): Option<nat>
    requires s <= |z|
  {
    RunFrom(z, s, {Start}, None, blank)
  }

  /** A state is reached after some tokens and the beginning of another. */
  ghost predicate Reached(x: string, q: State, blank: bool)
  {
    q != Dead && exists xs, y :: ReachedVia(x, q, xs, y, blank)
  }

  predicate ReachedVia(x: string, q: State, xs: seq<Lexeme>, y: string, blank: bool)
  {
    AllPieces(xs, blank) && Run(Start, y) == q && x == Concat(xs) + y
  }

  lemma {:induction false} ReachedBy(x: string, q: State, xs: seq<Lexeme>, y: string, blank: bool)
    requires q != Dead && AllPieces(xs, blank) && Run(Start, y) == q && x == Concat(xs) + y
    ensures Reached(x, q, blank)
  {
    assert ReachedVia(x, q, xs, y, blank);
  }

  lemma {:induction false} ConcatSnoc(xs: seq<Lexeme>, x: Lexeme)
    ensures Concat(xs + [x]) == Concat(xs) + x.text
  {
    ConcatAppend(xs, [x]);
    assert [x][1..] == [];
  }

  lemma ReachedRun(x: string, q: State, blank: bool)
    requires Reached(x, q, blank) && AcceptsPiece(q, blank)
    ensures IsRun(x, blank)
  {
    var xs, y :| ReachedVia(x, q, xs, y, blank);
    var l := AcceptedPiece(y, blank);
    ConcatSnoc(xs, l);
    assert Covers(xs + [l], x, blank);
  }

  lemma RunReached(x: string, blank: bool) returns (q: State)
    requires IsRun(x, blank)
    ensures Reached(x, q, blank) && AcceptsPiece(q, blank) && q != Start
  {
    var xs :| Covers(xs, x, blank);
    var front, l := xs[..|xs| - 1], xs[|xs| - 1];
    ConcatSnoc(front, l);
    assert xs == front + [l];
    PieceAccepted(l, blank);
    q := Run(Start, l.text);
    ReachedBy(x, q, front, l.text, blank);
  }

  lemma StepReached(x: string, q: State, c: char, blank: bool)
    requires Reached(x, q, blank) && Step(q, c) != Dead
    ensures Reached(x + [c], Step(q, c), blank)
  {
    var xs, y :| ReachedVia(x, q, xs, y, blank);
    RunSnoc(Start, y, c);
    assert x + [c] == Concat(xs) + (y + [c]);
    ReachedBy(x + [c], Step(q, c), xs, y + [c], blank);
  }

  lemma RunStarts(x: string, blank: bool)
    requires IsRun(x, blank)
    ensures Reached(x, Start, blank)
  {
    var xs :| Covers(xs, x, blank);
    assert ReachedVia(x, Start, xs, "", blank);
  }

  /** Where a state comes from */
  lemma CameFrom(x: string, c: char, q: State, blank: bool) returns (p: State)
    requires Reached(x + [c], q, blank) && q != Start
    ensures Reached(x, p, blank) && Step(p, c) == q
  {
    var xs, y :| ReachedVia(x + [c], q, xs, y, blank);
    assert y != "" by {
      assert Run(Start, "") == Start;
    }
    var front := y[..|y| - 1];
    assert y[|y| - 1] == (x + [c])[|x|] == c;
    assert y == front + [c];
    assert x == (x + [c])[..|x|] == Concat(xs) + front;
    RunSnoc(Start, front, c);
    p := Run(Start, front);
    ReachedBy(x, p, xs, front, blank);
  }

  lemma StartMeansRun(x: string, blank: bool)
    requires Reached(x, Start, blank) && x != ""
    ensures IsRun(x, blank)
  {
    var xs, y :| ReachedVia(x, Start, xs, y, blank);
    if y != "" {
      LeavesStart(y);
    }
    assert Covers(xs, x, blank);
  }

  lemma StepNotStart(q: State, c: char)
    ensures Step(q, c) != Start
  {
  }

  lemma {:induction false} LeavesStart(y: string)
    requires y != ""
    ensures Run(Start, y) != Start
  {
    var front, c := y[..|y| - 1], y[|y| - 1];
    assert y == front + [c];
    RunSnoc(Start, front, c);
    StepNotStart(Run(Start, front), c);
  }

  /** The active states are exactly those that are reached. */
  ghost predicate Tracks(active: set<State>, x: string, blank: bool)
  {
    forall q :: q in active <==> Reached(x, q, blank)
  }

  lemma AcceptingIsRun(active: set<State>, x: string, c: char, blank: bool)
    requires Tracks(active, x, blank)
    ensures Accepting(StepAll(active, c), blank) <==> IsRun(x + [c], blank)
  {
    var next := StepAll(active, c);
    if Accepting(next, blank) {
      var q :| q in next && AcceptsPiece(q, blank);
      var p :| p in active && Step(p, c) != Dead && q == Step(p, c);
      StepReached(x, p, c, blank);
      ReachedRun(x + [c], q, blank);
    }
    if IsRun(x + [c], blank) {
      var q := RunReached(x + [c], blank);
      var p := CameFrom(x, c, q, blank);
      assert q in next;
    }
  }

  lemma TracksStep(active: set<State>, x: string, c: char, blank: bool)
    requires Tracks(active, x, blank)
    ensures Tracks(Advanced(active, c, blank), x + [c], blank)
  {
    AcceptingIsRun(active, x, c, blank);
    forall q ensures q in Advanced(active, c, blank) <==> Reached(x + [c], q, blank) {
      if q in StepAll(active, c) {
        var p :| p in active && Step(p, c) != Dead && q == Step(p, c);
        StepReached(x, p, c, blank);
      } else if q in Advanced(active, c, blank) {
        RunStarts(x + [c], blank);
      }
      if Reached(x + [c], q, blank) {
        if q == Start {
          StartMeansRun(x + [c], blank);
        } else {
          var p := CameFrom(x, c, q, blank);
          assert q in StepAll(active, c);
        }
      }
    }
  }

  lemma TracksStart(blank: bool)
    ensures Tracks({Start}, "", blank)
  {
    forall q ensures q in {Start} <==> Reached("", q, blank) {
      if q == Start {
        ReachedBy("", Start, [], "", blank);
      }
      if Reached("", q, blank) {
        var xs, y :| ReachedVia("", q, xs, y, blank);
        assert y == "";
      }
    }
  }

  lemma {:induction false} NothingLater(z: string, s: nat, c: nat, e: nat, blank: bool)
    requires s <= c < e <= |z| && Tracks({}, z[s..c], blank)
    ensures !IsRun(z[s..e], blank) && Tracks({}, z[s..e], blank)
    decreases e
  {
    if e > c + 1 {
      NothingLater(z, s, c, e - 1, blank);
    }
    var x := z[s..e - 1];
    assert z[s..e] == x + [z[e - 1]];
    assert StepAll({}, z[e - 1]) == {};
    AcceptingIsRun({}, x, z[e - 1], blank);
    TracksStep({}, x, z[e - 1], blank);
  }

  ghost predicate NoRun(z: string, s: nat, from: nat, to: nat, blank: bool)
    requires s <= from && to <= |z|
  {
    forall e | from < e <= to :: !IsRun(z[s..e], blank)
  }

  /** The longest run from a position, as far as it has been looked for */
  ghost predicate LongestRun(z: string, s: nat, c: nat, r: Option<nat>, blank: bool)
  {
    && s <= c <= |z|
    && (r.Some? ==> s < r.value <= c && IsRun(z[s..r.value], blank))
    && NoRun(z, s, if r.Some? then r.value else s, c, blank)
  }

  lemma LongestRunMore(z: string, s: nat, c: nat, best: Option<nat>, found: bool, blank: bool)
    requires LongestRun(z, s, c, best, blank) && c < |z| && found == IsRun(z[s..c + 1], blank)
    ensures LongestRun(z, s, c + 1, if found then Some(c + 1) else best, blank)
  {
  }

  lemma LongestRunStep(z: string, s: nat, c: nat, active: set<State>, best: Option<nat>, blank: bool)
    requires LongestRun(z, s, c, best, blank) && Tracks(active, z[s..c], blank) && c < |z|
    ensures LongestRun(z, s, c + 1, if Accepting(StepAll(active, z[c]), blank) then Some(c + 1) else best, blank)
    ensures Tracks(Advanced(active, z[c], blank), z[s..c + 1], blank)
  {
    assert z[s..c + 1] == z[s..c] + [z[c]];
    AcceptingIsRun(active, z[s..c], z[c], blank);
    LongestRunMore(z, s, c, best, Accepting(StepAll(active, z[c]), blank), blank);
    TracksStep(active, z[s..c], z[c], blank);
  }

  lemma NoneLater(z: string, s: nat, c: nat, best: Option<nat>, blank: bool)
    requires LongestRun(z, s, c, best, blank) && Tracks({}, z[s..c], blank)
    ensures LongestRun(z, s, |z|, best, blank)
  {
    forall e | c < e <= |z| ensures !IsRun(z[s..e], blank) {
      NothingLater(z, s, c, e, blank);
    }
  }

  lemma {:induction false} RunFromNext(z: string, c: nat, active: set<State>, best: Option<nat>, blank: bool)
    requires c < |z| && active != {}
    ensures RunFrom(z, c, active, best, blank) ==
      RunFrom(z, c + 1, Advanced(active, z[c], blank),
              if Accepting(StepAll(active, z[c]), blank) then Some(c + 1) else best, blank)
  {
  }

  lemma {:induction false} RunFromDone(z: string, s: nat, c: nat, active: set<State>, best: Option<nat>, blank: bool)
    requires LongestRun(z, s, c, best, blank) && Tracks(active, z[s..c], blank) && (active == {} || c == |z|)
    ensures LongestRun(z, s, |z|, RunFrom(z, c, active, best, blank), blank)
  {
    if active == {} {
      NoneLater(z, s, c, best, blank);
    }
  }

  lemma {:induction false} RunFromLongest(z: string, s: nat, c: nat, active: set<State>, best: Option<nat>, blank: bool)
    requires LongestRun(z, s, c, best, blank) && Tracks(active, z[s..c], blank)
    ensures LongestRun(z, s, |z|, RunFrom(z, c, active, best, blank), blank)
    decreases |z| - c, 1
  {
    if active == {} || c == |z| {
      RunFromDone(z, s, c, active, best, blank);
    } else {
      LongestRunStep(z, s, c, active, best, blank);
      RunFromNext(z, c, active, best, blank);
      RunFromMore(z, s, c, Advanced(active, z[c], blank),
                  if Accepting(StepAll(active, z[c]), blank) then Some(c + 1) else best, blank,
                  RunFrom(z, c, active, best, blank));
    }
  }

  lemma {:induction false} RunFromMore(z: string, s: nat, c: nat, active: set<State>, best: Option<nat>, blank: bool,
                                       r: Option<nat>)
    requires c < |z| && LongestRun(z, s, c + 1, best, blank) && Tracks(active, z[s..c + 1], blank)
    requires r == RunFrom(z, c + 1, active, best, blank)
    ensures LongestRun(z, s, |z|, r, blank)
    decreases |z| - c, 0
  {
    RunFromLongest(z, s, c + 1, active, best, blank);
  }

  /** The run that is found is the longest one, and none is found only if there is none. */
  lemma RunEndLongest(z: string, s: nat, blank: bool)
    requires s <= |z|
    ensures LongestRun(z, s, |z|, RunEnd(z, s, blank), blank)
  {
    TracksStart(blank);
    assert z[s..s] == "";
    RunFromLongest(z, s, s, {Start}, None, blank);
  }

  // ---- Tokens in a run ----

  /** The characters of numbers */
  predicate NumeralChar(c: char)
  {
    Digit(c) || c == '.' || ExpChar(c) || Sign(c)
  }

  predicate NumberState(q: State)
  {
    q in {Minus, Zero, Digits, Dot, Fraction, Exp, ExpSign, ExpDigits}
  }

  lemma {:induction false} NumberStays(q: State, x: string)
    requires NumberState(q) && Run(q, x) != Dead
    ensures NumberState(Run(q, x)) && forall i | 0 <= i < |x| :: NumeralChar(x[i])
    decreases x
  {
    if x != "" {
      if Step(q, x[0]) == Dead {
        RunDead(x[1..]);
      }
      NumberStays(Step(q, x[0]), x[1..]);
      assert forall i | 1 <= i < |x| :: x[i] == x[1..][i - 1];
    }
  }

  lemma NumberChars(x: Lexeme)
    requires Genuine(x) && x.kind == Number
    ensures x.text != "" && forall i | 0 <= i < |x.text| :: NumeralChar(x.text[i])
  {
    GenuineStarts(x);
    var q := FirstStep(x.text[0]);
    assert Run(Start, x.text) == Run(q, x.text[1..]);
    FirstOfNumber(x);
    NumberStays(q, x.text[1..]);
    assert forall i | 1 <= i < |x.text| :: x.text[i] == x.text[1..][i - 1];
  }

  lemma FirstOfNumber(x: Lexeme)
    requires Genuine(x) && x.kind == Number && x.text != ""
    ensures NumberState(FirstStep(x.text[0])) && NumeralChar(x.text[0])
  {
    GenuineByRules(x);
    RunNumber(x.text);
    var q := FirstStep(x.text[0]);
    assert Run(Start, x.text) == Run(q, x.text[1..]);
    if !NumberState(q) {
      StepNotStart(Start, x.text[0]);
      StaysOut(q, x.text[1..]);
    }
  }

  /** Outside of numbers the automaton does not come to the end of one. */
  lemma {:induction false} StaysOut(q: State, x: string)
    requires q != Start && !NumberState(q)
    ensures Run(q, x) != Start && !NumberState(Run(q, x))
    decreases x
  {
    if x != "" {
      StaysOut(Step(q, x[0]), x[1..]);
    }
  }

  /** A genuine token that starts like a number is one. */
  lemma StartsLikeNumber(x: Lexeme)
    requires Genuine(x) && x.text != "" && NumeralChar(x.text[0])
    ensures x.kind == Number
  {
    var q := FirstStep(x.text[0]);
    assert Run(Start, x.text) == Run(q, x.text[1..]);
    if NumberState(q) {
      NumberStays(q, x.text[1..]);
    } else {
      assert q == Other;
      OtherEnds(x.text[1..]);
    }
  }

  lemma {:induction false} OtherEnds(x: string)
    ensures Run(Other, x) == if x == "" then Other else Dead
  {
    if x != "" {
      RunDead(x[1..]);
    }
  }

  /** A token other than a number is the whole of any token that starts at the same place. */
  lemma HeadsEqual(x: Lexeme, y: Lexeme, r1: string, r2: string)
    requires Genuine(x) && Genuine(y) && x.kind != Number && x.text + r1 == y.text + r2
    ensures x.text == y.text
  {
    var whole := x.text + r1;
    assert x.text == whole[..|x.text|] && y.text == whole[..|y.text|];
    if |x.text| < |y.text| {
      Extends(x.text, y.text);
    } else if |y.text| < |x.text| {
      if y.kind == Number {
        GenuineStarts(y);
        NumberChars(y);
        assert x.text[0] == y.text[0];
        StartsLikeNumber(x);
      }
      Extends(y.text, x.text);
    }
  }

  lemma {:induction false} Extends(x: string, y: string)
    requires |x| < |y| && x == y[..|x|] && Run(Start, x).Done?
    ensures Run(Start, y) == Dead
  {
    var w := y[|x|..];
    assert y == x + w;
    RunAppend(Start, x, w);
    RunDead(w[1..]);
  }

  /** Tokens that cover the rest of a number, up to a character no number has, end where it ends. */
  lemma {:induction false} Tiles(t: string, rest: string, ys: seq<Lexeme>, blank: bool) returns (k: nat)
    requires AllPieces(ys, blank) && Concat(ys) == t + rest
    requires (forall i | 0 <= i < |t| :: NumeralChar(t[i])) && rest != "" && !NumeralChar(rest[0])
    ensures k <= |ys| && Concat(ys[k..]) == rest && (t != "" ==> k > 0)
    decreases |t|
  {
    if t == "" {
      k := 0;
      assert ys[0..] == ys && t + rest == rest;
    } else {
      assert (t + rest)[0] == t[0];
      var y := ys[0];
      PieceAccepted(y, blank);
      assert Concat(ys) == y.text + Concat(ys[1..]);
      assert y.text[0] == t[0];
      StartsLikeNumber(y);
      NumberChars(y);
      NumberWithin(y.text, t, rest, Concat(ys[1..]));
      TileStep(t, rest, y.text, Concat(ys[1..]));
      k := Tiles(t[|y.text|..], rest, ys[1..], blank);
      k := k + 1;
      assert ys[1..][k - 1..] == ys[k..];
    }
  }

  lemma NumberWithin(y: string, t: string, rest: string, more: string)
    requires (forall i | 0 <= i < |y| :: NumeralChar(y[i])) && y + more == t + rest && rest != ""
      && !NumeralChar(rest[0])
    ensures |y| <= |t|
  {
    assert (t + rest)[|t|] == rest[0];
    assert forall i | 0 <= i < |y| :: (y + more)[i] == y[i];
  }

  lemma TileStep(t: string, rest: string, y: string, more: string)
    requires y + more == t + rest && |y| <= |t|
    ensures more == t[|y|..] + rest
  {
    assert more == (y + more)[|y|..];
    assert (t + rest)[|y|..] == t[|y|..] + rest;
  }

  /** What can stand after a token in a value, or after it: not a character of a number */
  lemma StructuralStart(x: Lexeme)
    requires Genuine(x) && !ScalarKind(x.kind)
    ensures x.text != "" && !NumeralChar(x.text[0])
  {
    GenuineStarts(x);
    if NumeralChar(x.text[0]) {
      StartsLikeNumber(x);
    }
  }

  lemma {:induction false} DoneEnds(k: Kind, x: string)
    ensures Run(Done(k), x) == if x == "" then Done(k) else Dead
  {
    if x != "" {
      RunDead(x[1..]);
    }
  }

  lemma NotNul(x: Lexeme)
    requires Genuine(x)
    ensures x.text != "" && x.text[0] != '\0'
  {
    GenuineStarts(x);
    if x.text[0] == '\0' {
      assert Run(Start, x.text) == Run(Done(End), x.text[1..]);
      DoneEnds(End, x.text[1..]);
    }
  }

  lemma SameRest(x: string, a: string, b: string)
    requires x + a == x + b
    ensures a == b
  {
    assert a == (x + a)[|x|..];
    assert b == (x + b)[|x|..];
  }

  lemma {:induction false} ApartParts(xs: seq<Lexeme>, ys: seq<Lexeme>)
    requires Apart(xs + ys)
    ensures Apart(xs) && Apart(ys)
    decreases xs
  {
    if xs == [] {
      assert xs + ys == ys;
    } else {
      assert (xs + ys)[1..] == xs[1..] + ys;
      ApartParts(xs[1..], ys);
    }
  }

  /** No run includes the terminator. */
  lemma RunWithin(text: string, s: nat, blank: bool)
    requires s <= |text|
    ensures var e := RunEnd(Z(text), s, blank); e.Some? ==> s < e.value <= |text|
  {
    var z, e := Z(text), RunEnd(Z(text), s, blank);
    RunEndLongest(z, s, blank);
    if e.Some? && e.value == |z| {
      var xs :| Covers(xs, z[s..|z|], blank);
      assert z[s..|z|] == text[s..] + "\0";
      NoNulAtEnd(xs, text[s..], blank);
    }
  }

  lemma LastChar(a: string, b: string, front: string, c: char)
    requires a + b == front + [c] && b != ""
    ensures b[|b| - 1] == c
  {
    assert b[|b| - 1] == (a + b)[|a + b| - 1];
    assert (front + [c])[|front|] == c;
  }

  /** No piece ends with the terminator. */
  lemma {:induction false} PieceEnds(x: Lexeme, blank: bool)
    requires Piece(x, blank)
    ensures x.text != "" && x.text[|x.text| - 1] != '\0'
  {
    PieceAccepted(x, blank);
    if Genuine(x) && x.text[|x.text| - 1] == '\0' {
      GenuineByRules(x);
      NulNotReal(Tok(x.kind), x.text);
    }
  }

  lemma NoNulAtEnd(xs: seq<Lexeme>, front: string, blank: bool)
    requires xs != [] && AllPieces(xs, blank)
    ensures Concat(xs) != front + "\0"
  {
    var init, last := xs[..|xs| - 1], xs[|xs| - 1];
    assert xs == init + [last];
    ConcatSnoc(init, last);
    PieceEnds(last, blank);
    if Concat(xs) == front + "\0" {
      LastChar(Concat(init), last.text, front, '\0');
    }
  }

  lemma LongestIs(z: string, s: nat, e: nat, r: Option<nat>, blank: bool)
    requires s < e <= |z| && LongestRun(z, s, |z|, r, blank)
    requires IsRun(z[s..e], blank) && forall r | e < r <= |z| :: !IsRun(z[s..r], blank)
    ensures r == Some(e)
  {
  }

  // ---- Finding a run ----

  /** The scan for a run: all states the automaton can be in, and the last end seen */
  method ScanRun(text: string, s: nat, blank: bool) returns (end: Option<nat>)
    requires s <= |text|
    ensures end == RunEnd(Z(text), s, blank)
  {
    ghost var z, goal := Z(text), RunEnd(Z(text), s, blank);
    var c, active := s, {Start};
    end := None;
    while active != {} && c <= |text|
      invariant s <= c <= |text| + 1
      invariant RunFrom(z, c, active, end, blank) == goal
      decreases |text| + 1 - c
    {
      RunFromNext(z, c, active, end, blank);
      var next := StepAll(active, At(text, c));
      active := Advanced(active, At(text, c), blank);
      c := c + 1;
      if Accepting(next, blank) {
        end := Some(c);
      }
    }
  }

  /** A text in front of a result, if there is one */
  function Behind(str: string, r: Option<string>): Option<string>
  {
    if r.None? then None else Some(str + r.value)
  }

  lemma NothingBefore(r: Option<string>)
    ensures Behind("", r) == r
  {
    if r.Some? {
      assert "" + r.value == r.value;
    }
  }
}
