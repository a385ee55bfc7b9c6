/** JSON values as a grammar over tokens, and the validator and iterators of sjson.c. */
module JsonGrammar {
  import opened Wrappers
  import opened JsonLexer
  import opened JsonTokens

  // ---- The grammar ----

  datatype Value = Scalar(x: Lexeme) | Array(items: seq<Value>) | Object(members: seq<Member>)

  datatype Member = Member(key: Lexeme, value: Value)

  function Mark(k: Kind): Lexeme
  {
    Lexeme(k, match k
              case ObjStart => "{"
              case ObjEnd => "}"
              case ArrayStart => "["
              case ArrayEnd => "]"
              case Colon => ":"
              case _ => ",")
  }

  /** Leaves are scalar tokens, and keys are strings. */
  predicate Proper(v: Value)
  {
    match v
    case Scalar(x) => ScalarKind(x.kind)
    case Array(items) => forall i | 0 <= i < |items| :: Proper(items[i])
    case Object(members) => forall i | 0 <= i < |members| :: StringKind(members[i].key.kind) && Proper(members[i].value)
  }

  predicate ProperItems(items: seq<Value>)
  {
    forall i | 0 <= i < |items| :: Proper(items[i])
  }

  predicate ProperMembers(members: seq<Member>)
  {
    forall i | 0 <= i < |members| :: StringKind(members[i].key.kind) && Proper(members[i].value)
  }

  /** The tokens of a value */
  function Flat(v: Value): (xs: seq<Lexeme>)
    ensures xs != []
  {
    match v
    case Scalar(x) => [x]
    case Array(items) => [Mark(ArrayStart)] + FlatItems(items, false)
    case Object(members) => [Mark(ObjStart)] + FlatMembers(members, false)
  }

  function Separator(comma: bool): seq<Lexeme>
  {
    if comma then [Mark(Comma)] else []
  }

  /** The remaining elements of an array up to its end; a comma comes before all but the first. */
  function FlatItems(items: seq<Value>, comma: bool): (xs: seq<Lexeme>)
    ensures xs != []
  {
    if items == [] then [Mark(ArrayEnd)]
    else Separator(comma) + (Flat(items[0]) + FlatItems(items[1..], true))
  }

  function FlatMember(m: Member): seq<Lexeme>
  {
    [m.key, Mark(Colon)] + Flat(m.value)
  }

  function FlatMembers(members: seq<Member>, comma: bool): (xs: seq<Lexeme>)
    ensures xs != []
  {
    if members == [] then [Mark(ObjEnd)]
    else Separator(comma) + (FlatMember(members[0]) + FlatMembers(members[1..], true))
  }

  /** A value stands in a text at a position, up to an end. */
  predicate Spells(text: string, pos: nat, v: Value, end: nat)
    requires pos <= |text|
  {
    Proper(v) && After(text, pos, Flat(v)) == Some(end)
  }

  lemma {:induction false} FlatStarts(v: Value)
    requires Proper(v)
    ensures var k := Flat(v)[0].kind; ScalarKind(k) || k == ArrayStart || k == ObjStart
  {
  }

  lemma {:induction false} FlatEnds(v: Value)
    requires Proper(v)
    ensures var xs := Flat(v); v.Scalar? || xs[|xs| - 1].kind == ArrayEnd || xs[|xs| - 1].kind == ObjEnd
  {
    if v.Array? {
      FlatItemsEnd(v.items, false);
    } else if v.Object? {
      FlatMembersEnd(v.members, false);
    }
  }

  lemma {:induction false} FlatItemsEnd(items: seq<Value>, comma: bool)
    ensures var xs := FlatItems(items, comma); xs[|xs| - 1].kind == ArrayEnd
    decreases items
  {
    if items != [] {
      FlatItemsEnd(items[1..], true);
    }
  }

  lemma {:induction false} FlatMembersEnd(members: seq<Member>, comma: bool)
    ensures var xs := FlatMembers(members, comma); xs[|xs| - 1].kind == ObjEnd
    decreases members
  {
    if members != [] {
      FlatMembersEnd(members[1..], true);
    }
  }

  // ---- No two scalar tokens are adjacent in a value ----

  lemma {:induction false} FlatApart(v: Value)
    requires Proper(v)
    ensures Apart(Flat(v))
    decreases v, 1
  {
    match v
    case Scalar(x) =>
    case Array(items) =>
      ItemsApart(items, false);
      ApartAppend([Mark(ArrayStart)], FlatItems(items, false));
    case Object(members) =>
      MembersApart(members, false);
      ApartAppend([Mark(ObjStart)], FlatMembers(members, false));
  }

  lemma FlatItemsCons(v: Value, rest: seq<Value>, comma: bool)
    ensures FlatItems([v] + rest, comma) == Separator(comma) + (Flat(v) + FlatItems(rest, true))
  {
    assert ([v] + rest)[1..] == rest;
  }

  lemma FlatMembersCons(m: Member, rest: seq<Member>, comma: bool)
    ensures FlatMembers([m] + rest, comma) == Separator(comma) + (FlatMember(m) + FlatMembers(rest, true))
  {
    assert ([m] + rest)[1..] == rest;
  }

  /** A separator, a value or a member, and what follows it, which starts with no scalar */
  lemma ApartJoin(comma: bool, xs: seq<Lexeme>, rest: seq<Lexeme>)
    requires xs != [] && rest != [] && Apart(xs) && Apart(rest) && !ScalarKind(rest[0].kind)
    ensures var all := Separator(comma) + (xs + rest); Apart(all) && (comma ==> !ScalarKind(all[0].kind))
  {
    ApartAppend(xs, rest);
    ApartAppend(Separator(comma), xs + rest);
  }

  lemma {:induction false} ItemsApart(items: seq<Value>, comma: bool)
    requires ProperItems(items)
    ensures Apart(FlatItems(items, comma))
    ensures comma ==> !ScalarKind(FlatItems(items, comma)[0].kind)
    decreases items, 0
  {
    if items != [] {
      var v, more := items[0], items[1..];
      assert items == [v] + more;
      FlatApart(v);
      ItemsApart(more, true);
      FlatItemsCons(v, more, comma);
      ApartJoin(comma, Flat(v), FlatItems(more, true));
    }
  }

  lemma {:induction false} MemberApart(m: Member)
    requires StringKind(m.key.kind) && Proper(m.value)
    ensures Apart(FlatMember(m))
    decreases m, 0
  {
    FlatApart(m.value);
    ApartAppend([m.key, Mark(Colon)], Flat(m.value));
  }

  lemma {:induction false} MembersApart(members: seq<Member>, comma: bool)
    requires ProperMembers(members)
    ensures Apart(FlatMembers(members, comma))
    ensures comma ==> !ScalarKind(FlatMembers(members, comma)[0].kind)
    decreases members, 0
  {
    if members != [] {
      var m, more := members[0], members[1..];
      assert members == [m] + more;
      MemberApart(m);
      MembersApart(more, true);
      FlatMembersCons(m, more, comma);
      ApartJoin(comma, FlatMember(m), FlatMembers(more, true));
    }
  }

  // ---- The validator as a function ----

  /** Where the value ends that starts at a position, if there is one */
  function ValueEnd(text: string, pos: nat): (r: Option<nat>)
    requires pos <= |text|
    ensures r.Some? ==> pos <= NextToken(text, pos).start < r.value <= |text|
    decreases |text| - pos, 0
  {
    var t := NextToken(text, pos);
    if t.kind == ArrayStart then ItemsEnd(text, t.end, false)
    else if t.kind == ObjStart then MembersEnd(text, t.end, false)
    else if ScalarKind(t.kind) then Some(t.end)
    else None
  }

  function ItemsEnd(text: string, pos: nat, expectComma: bool): (r: Option<nat>)
    requires pos <= |text|
    ensures r.Some? ==> pos < r.value <= |text|
    decreases |text| - pos, 1
  {
    var t := NextToken(text, pos);
    if t.kind == ArrayEnd then Some(t.end)
    else if expectComma && t.kind != Comma then None
    else
      var elem := ValueEnd(text, if expectComma then t.end else pos);
      if elem.None? then None else ItemsEnd(text, elem.value, true)
  }

  /** Where the value of a member starts, after its name and the colon */
  function MemberValue(text: string, key: Lexed): (r: Option<nat>)
    requires Real(key.kind) ==> key.end <= |text|
    ensures r.Some? ==> key.end < r.value <= |text|
  {
    if !StringKind(key.kind) then None
    else
      var c := NextToken(text, key.end);
      if c.kind == Colon then Some(c.end) else None
  }

  function MembersEnd(text: string, pos: nat, expectComma: bool): (r: Option<nat>)
    requires pos <= |text|
    ensures r.Some? ==> pos < r.value <= |text|
    decreases |text| - pos, 1
  {
    var t := NextToken(text, pos);
    if t.kind == ObjEnd then Some(t.end)
    else if expectComma && t.kind != Comma then None
    else
      var key := if expectComma then NextToken(text, t.end) else t;
      var at := MemberValue(text, key);
      if at.None? then None
      else
        var value := ValueEnd(text, at.value);
        if value.None? then None else MembersEnd(text, value.value, true)
  }

  // ---- It accepts exactly the grammar ----

  /** The text of a structural token is fixed by its kind. */
  lemma {:induction false} MarkAt(text: string, pos: nat)
    requires pos <= |text|
    ensures var t := NextToken(text, pos); Real(t.kind) && !ScalarKind(t.kind) ==> LexemeAt(text, t) == Mark(t.kind)
  {
    var t := NextToken(text, pos);
    if Real(t.kind) {
      TokenPlace(text, pos);
      GenuineByRules(LexemeAt(text, t));
    }
  }

  lemma {:induction false} AfterMark(text: string, pos: nat, k: Kind, xs: seq<Lexeme>)
    requires pos <= |text| && Real(k) && !ScalarKind(k)
    ensures var t := NextToken(text, pos);
      After(text, pos, [Mark(k)] + xs) == if t.kind == k then After(text, t.end, xs) else None
  {
    MarkAt(text, pos);
    AfterOne(text, pos, Mark(k));
    AfterAppend(text, pos, [Mark(k)], xs);
  }

  /** A comma is read before all but the first element or member. */
  lemma AfterSeparator(text: string, pos: nat, comma: bool, xs: seq<Lexeme>)
    requires pos <= |text|
    ensures var t := NextToken(text, pos);
      After(text, pos, Separator(comma) + xs) ==
      if !comma then After(text, pos, xs) else if t.kind == Comma then After(text, t.end, xs) else None
  {
    if comma {
      AfterMark(text, pos, Comma, xs);
    } else {
      assert Separator(false) + xs == xs;
    }
  }

  lemma ArrayOpens(text: string, pos: nat, items: seq<Value>, end: nat)
    requires pos <= |text| && Spells(text, pos, Array(items), end)
    ensures var t := NextToken(text, pos);
      t.kind == ArrayStart && ProperItems(items) && After(text, t.end, FlatItems(items, false)) == Some(end)
  {
    AfterMark(text, pos, ArrayStart, FlatItems(items, false));
  }

  lemma ObjectOpens(text: string, pos: nat, members: seq<Member>, end: nat)
    requires pos <= |text| && Spells(text, pos, Object(members), end)
    ensures var t := NextToken(text, pos);
      t.kind == ObjStart && ProperMembers(members) && After(text, t.end, FlatMembers(members, false)) == Some(end)
  {
    AfterMark(text, pos, ObjStart, FlatMembers(members, false));
  }

  lemma {:induction false} ValueComplete(text: string, pos: nat, v: Value, end: nat)
    requires pos <= |text| && Spells(text, pos, v, end)
    ensures ValueEnd(text, pos) == Some(end)
    decreases v, 1
  {
    match v
    case Scalar(x) => AfterOne(text, pos, x);
    case Array(items) =>
      ArrayOpens(text, pos, items, end);
      ItemsComplete(text, NextToken(text, pos).end, items, false, end);
    case Object(members) =>
      ObjectOpens(text, pos, members, end);
      MembersComplete(text, NextToken(text, pos).end, members, false, end);
  }

  /** The token a value starts with */
  lemma {:induction false} ValueStarts(text: string, pos: nat, v: Value)
    requires pos <= |text| && Proper(v) && After(text, pos, Flat(v)).Some?
    ensures var k := NextToken(text, pos).kind; ScalarKind(k) || k == ArrayStart || k == ObjStart
  {
    FlatStarts(v);
  }

  /** Where the first element starts and ends when elements are read */
  lemma ItemsSplit(text: string, pos: nat, v: Value, rest: seq<Value>, comma: bool) returns (at: nat, mid: nat)
    requires pos <= |text| && Proper(v) && After(text, pos, FlatItems([v] + rest, comma)).Some?
    ensures var t := NextToken(text, pos);
      t.kind != ArrayEnd && (comma ==> t.kind == Comma) && at == (if comma then t.end else pos)
    ensures pos <= at <= mid <= |text| && After(text, at, Flat(v)) == Some(mid)
    ensures After(text, mid, FlatItems(rest, true)) == After(text, pos, FlatItems([v] + rest, comma))
  {
    var tail := FlatItems(rest, true);
    FlatItemsCons(v, rest, comma);
    AfterSeparator(text, pos, comma, Flat(v) + tail);
    at := if comma then NextToken(text, pos).end else pos;
    AfterAppend(text, at, Flat(v), tail);
    mid := After(text, at, Flat(v)).value;
    ValueStarts(text, at, v);
  }

  lemma {:induction false} ItemsComplete(text: string, pos: nat, items: seq<Value>, comma: bool, end: nat)
    requires pos <= |text| && ProperItems(items) && After(text, pos, FlatItems(items, comma)) == Some(end)
    ensures ItemsEnd(text, pos, comma) == Some(end)
    decreases items, 0
  {
    if items == [] {
      AfterOne(text, pos, Mark(ArrayEnd));
    } else {
      var v, rest := items[0], items[1..];
      assert items == [v] + rest;
      var at, mid := ItemsSplit(text, pos, v, rest, comma);
      ValueComplete(text, at, v, mid);
      ItemsComplete(text, mid, rest, true, end);
    }
  }

  /** Reading a name, a colon and what follows */
  lemma {:induction false} AfterName(text: string, at: nat, key: Lexeme, xs: seq<Lexeme>)
    requires at <= |text| && StringKind(key.kind)
    ensures var t := NextToken(text, at);
      After(text, at, [key, Mark(Colon)] + xs) ==
      if Real(t.kind) && LexemeAt(text, t) == key && MemberValue(text, t).Some?
        then After(text, MemberValue(text, t).value, xs)
      else None
  {
    var t := NextToken(text, at);
    assert [key, Mark(Colon)] + xs == [key] + ([Mark(Colon)] + xs);
    AfterAppend(text, at, [key], [Mark(Colon)] + xs);
    AfterOne(text, at, key);
    if Real(t.kind) {
      AfterMark(text, t.end, Colon, xs);
    }
  }

  lemma MemberSplit(text: string, at: nat, m: Member, rest: seq<Lexeme>) returns (val: nat, mid: nat)
    requires at <= |text| && StringKind(m.key.kind) && Proper(m.value) && After(text, at, FlatMember(m) + rest).Some?
    ensures var t := NextToken(text, at);
      StringKind(t.kind) && LexemeAt(text, t) == m.key && MemberValue(text, t) == Some(val)
    ensures at <= val <= mid <= |text| && After(text, val, Flat(m.value)) == Some(mid)
    ensures After(text, mid, rest) == After(text, at, FlatMember(m) + rest)
  {
    Assoc([m.key, Mark(Colon)], Flat(m.value), rest);
    AfterName(text, at, m.key, Flat(m.value) + rest);
    val := MemberValue(text, NextToken(text, at)).value;
    AfterAppend(text, val, Flat(m.value), rest);
    mid := After(text, val, Flat(m.value)).value;
  }

  /** Where the name, the value and the end of the first member are when members are read */
  lemma MembersSplit(text: string, pos: nat, m: Member, rest: seq<Member>, comma: bool)
    returns (at: nat, val: nat, mid: nat)
    requires pos <= |text| && StringKind(m.key.kind) && Proper(m.value)
    requires After(text, pos, FlatMembers([m] + rest, comma)).Some?
    ensures MemberAt(text, pos, comma, at, val) && LexemeAt(text, NextToken(text, at)) == m.key
    ensures val <= mid <= |text| && After(text, val, Flat(m.value)) == Some(mid)
    ensures After(text, mid, FlatMembers(rest, true)) == After(text, pos, FlatMembers([m] + rest, comma))
  {
    var tail := FlatMembers(rest, true);
    FlatMembersCons(m, rest, comma);
    AfterSeparator(text, pos, comma, FlatMember(m) + tail);
    at := if comma then NextToken(text, pos).end else pos;
    val, mid := MemberSplit(text, at, m, tail);
  }

  lemma {:induction false} MemberComplete(text: string, val: nat, m: Member, mid: nat)
    requires val <= |text| && Spells(text, val, m.value, mid)
    ensures ValueEnd(text, val) == Some(mid)
    decreases m, 0
  {
    ValueComplete(text, val, m.value, mid);
  }

  /** The name of a member stands at a place behind the separator, and its value behind the colon. */
  predicate MemberAt(text: string, pos: nat, comma: bool, at: nat, val: nat)
    requires pos <= |text|
  {
    var t := NextToken(text, pos);
    && t.kind != ObjEnd && (comma ==> t.kind == Comma) && at == (if comma then t.end else pos)
    && at < val <= |text|
    && StringKind(NextToken(text, at).kind) && MemberValue(text, NextToken(text, at)) == Some(val)
  }

  lemma MembersEndCons(text: string, pos: nat, comma: bool, at: nat, val: nat, mid: nat)
    requires pos <= |text| && MemberAt(text, pos, comma, at, val) && ValueEnd(text, val) == Some(mid)
    ensures MembersEnd(text, pos, comma) == MembersEnd(text, mid, true)
  {
  }

  lemma {:induction false} MembersComplete(text: string, pos: nat, members: seq<Member>, comma: bool, end: nat)
    requires pos <= |text| && ProperMembers(members) && After(text, pos, FlatMembers(members, comma)) == Some(end)
    ensures MembersEnd(text, pos, comma) == Some(end)
    decreases members, 0
  {
    if members == [] {
      AfterOne(text, pos, Mark(ObjEnd));
    } else {
      var m, rest := members[0], members[1..];
      assert members == [m] + rest;
      var at, val, mid := MembersSplit(text, pos, m, rest, comma);
      MemberComplete(text, val, m, mid);
      MembersComplete(text, mid, rest, true, end);
      MembersEndCons(text, pos, comma, at, val, mid);
    }
  }

  lemma ArraySpelled(text: string, pos: nat, items: seq<Value>, end: nat)
    requires pos <= |text| && NextToken(text, pos).kind == ArrayStart && ProperItems(items)
    requires After(text, NextToken(text, pos).end, FlatItems(items, false)) == Some(end)
    ensures Spells(text, pos, Array(items), end)
  {
    AfterMark(text, pos, ArrayStart, FlatItems(items, false));
  }

  lemma ObjectSpelled(text: string, pos: nat, members: seq<Member>, end: nat)
    requires pos <= |text| && NextToken(text, pos).kind == ObjStart && ProperMembers(members)
    requires After(text, NextToken(text, pos).end, FlatMembers(members, false)) == Some(end)
    ensures Spells(text, pos, Object(members), end)
  {
    AfterMark(text, pos, ObjStart, FlatMembers(members, false));
  }

  lemma ScalarSpelled(text: string, pos: nat, t: Lexed)
    requires pos <= |text| && t == NextToken(text, pos) && ScalarKind(t.kind)
    ensures Spells(text, pos, Scalar(LexemeAt(text, t)), t.end)
  {
    AfterOne(text, pos, LexemeAt(text, t));
  }

  lemma ValueSound(text: string, pos: nat) returns (v: Value)
    requires pos <= |text| && ValueEnd(text, pos).Some?
    ensures Spells(text, pos, v, ValueEnd(text, pos).value)
    decreases |text| - pos, 0
  {
    var t, end := NextToken(text, pos), ValueEnd(text, pos).value;
    if t.kind == ArrayStart {
      var items := ItemsSound(text, t.end, false);
      ArraySpelled(text, pos, items, end);
      v := Array(items);
    } else if t.kind == ObjStart {
      var members := MembersSound(text, t.end, false);
      ObjectSpelled(text, pos, members, end);
      v := Object(members);
    } else {
      ScalarSpelled(text, pos, t);
      v := Scalar(LexemeAt(text, t));
    }
  }

  lemma {:induction false} ItemsSound(text: string, pos: nat, comma: bool) returns (items: seq<Value>)
    requires pos <= |text| && ItemsEnd(text, pos, comma).Some?
    ensures ProperItems(items) && After(text, pos, FlatItems(items, comma)) == ItemsEnd(text, pos, comma)
    decreases |text| - pos, 1
  {
    var t := NextToken(text, pos);
    if t.kind == ArrayEnd {
      items := [];
      AfterMark(text, pos, ArrayEnd, []);
      assert [Mark(ArrayEnd)] + [] == [Mark(ArrayEnd)];
    } else {
      var at := if comma then t.end else pos;
      var mid := ValueEnd(text, at).value;
      var v := ValueSound(text, at);
      var rest := ItemsSound(text, mid, true);
      items := [v] + rest;
      ItemsJoin(text, pos, v, rest, comma, at, mid);
    }
  }

  lemma ItemsJoin(text: string, pos: nat, v: Value, rest: seq<Value>, comma: bool, at: nat, mid: nat)
    requires pos <= |text| && (comma ==> NextToken(text, pos).kind == Comma)
    requires at == (if comma then NextToken(text, pos).end else pos) <= |text|
    requires After(text, at, Flat(v)) == Some(mid)
    ensures After(text, pos, FlatItems([v] + rest, comma)) == After(text, mid, FlatItems(rest, true))
  {
    var tail := FlatItems(rest, true);
    FlatItemsCons(v, rest, comma);
    AfterSeparator(text, pos, comma, Flat(v) + tail);
    AfterAppend(text, at, Flat(v), tail);
  }

  lemma MembersEndSplit(text: string, pos: nat, comma: bool) returns (at: nat, val: nat, mid: nat)
    requires pos <= |text| && MembersEnd(text, pos, comma).Some? && NextToken(text, pos).kind != ObjEnd
    ensures MemberAt(text, pos, comma, at, val) && ValueEnd(text, val) == Some(mid)
    ensures pos < val < mid <= |text| && MembersEnd(text, mid, true) == MembersEnd(text, pos, comma)
  {
    at := if comma then NextToken(text, pos).end else pos;
    val := MemberValue(text, NextToken(text, at)).value;
    mid := ValueEnd(text, val).value;
  }

  lemma {:induction false} MembersSound(text: string, pos: nat, comma: bool) returns (members: seq<Member>)
    requires pos <= |text| && MembersEnd(text, pos, comma).Some?
    ensures ProperMembers(members) && After(text, pos, FlatMembers(members, comma)) == MembersEnd(text, pos, comma)
    decreases |text| - pos, 1
  {
    var t := NextToken(text, pos);
    if t.kind == ObjEnd {
      members := [];
      AfterMark(text, pos, ObjEnd, []);
      assert [Mark(ObjEnd)] + [] == [Mark(ObjEnd)];
    } else {
      var at, val, mid := MembersEndSplit(text, pos, comma);
      var v := ValueSound(text, val);
      var rest := MembersSound(text, mid, true);
      var m := Member(LexemeAt(text, NextToken(text, at)), v);
      MembersJoin(text, pos, m, rest, comma, at, val, mid);
      members := [m] + rest;
    }
  }

  lemma MemberJoin(text: string, at: nat, m: Member, rest: seq<Lexeme>, val: nat, mid: nat)
    requires at <= |text| && StringKind(NextToken(text, at).kind) && m.key == LexemeAt(text, NextToken(text, at))
    requires MemberValue(text, NextToken(text, at)) == Some(val) && After(text, val, Flat(m.value)) == Some(mid)
    ensures After(text, at, FlatMember(m) + rest) == After(text, mid, rest)
  {
    Assoc([m.key, Mark(Colon)], Flat(m.value), rest);
    AfterName(text, at, m.key, Flat(m.value) + rest);
    AfterAppend(text, val, Flat(m.value), rest);
  }

  lemma MembersJoin(text: string, pos: nat, m: Member, rest: seq<Member>, comma: bool, at: nat, val: nat, mid: nat)
    requires pos <= |text| && MemberAt(text, pos, comma, at, val)
    requires m.key == LexemeAt(text, NextToken(text, at)) && After(text, val, Flat(m.value)) == Some(mid)
    ensures After(text, pos, FlatMembers([m] + rest, comma)) == After(text, mid, FlatMembers(rest, true))
  {
    var tail := FlatMembers(rest, true);
    FlatMembersCons(m, rest, comma);
    AfterSeparator(text, pos, comma, FlatMember(m) + tail);
    MemberJoin(text, at, m, tail, val, mid);
  }

  /** The validator accepts exactly the texts that start with a value of the grammar, and ends just
      after it. */
  lemma {:induction false} ValidExactly(text: string, pos: nat, end: nat)
    requires pos <= |text|
    ensures ValueEnd(text, pos) == Some(end) <==> exists v :: Spells(text, pos, v, end)
  {
    if ValueEnd(text, pos) == Some(end) {
      var v := ValueSound(text, pos);
    }
    if v :| Spells(text, pos, v, end) {
      ValueComplete(text, pos, v, end);
    }
  }

  lemma {:induction false} NoValue(text: string, pos: nat)
    requires pos <= |text| && ValueEnd(text, pos).None?
    ensures !exists v, e: nat :: Spells(text, pos, v, e)
  {
    if v: Value, e: nat :| Spells(text, pos, v, e) {
      ValueComplete(text, pos, v, e);
    }
  }

  // ---- The validator ----

  /** `s_json_is_valid_inner`: exactly the texts that start with a value, and where it ends */
  method IsValidInner(text: string, pos: nat) returns (ok: bool, end: nat)
    requires pos <= |text|
    ensures ok <==> exists v, e: nat :: Spells(text, pos, v, e)
    ensures ok ==> end <= |text| && exists v :: Spells(text, pos, v, end)
    ensures ok == ValueEnd(text, pos).Some? && (ok ==> end == ValueEnd(text, pos).value)
    decreases |text| - pos, 1
  {
    var t := GetToken(text, pos);
    ok, end := false, 0;
    if t.kind == ArrayStart {
      ok, end := ArrayIsValid(text, t.end);
    } else if t.kind == ObjStart {
      ok, end := ObjectIsValid(text, t.end);
    } else if t.kind == String || t.kind == NoescString || t.kind == Number
      || t.kind == False || t.kind == True || t.kind == Null {
      ok, end := true, t.end;
    }
    if ok {
      ValidExactly(text, pos, end);
    } else {
      NoValue(text, pos);
    }
  }

  /** The loop over array elements */
  method ArrayIsValid(text: string, next: nat) returns (ok: bool, end: nat)
    requires next <= |text|
    ensures ok == ItemsEnd(text, next, false).Some? && (ok ==> end == ItemsEnd(text, next, false).value)
    decreases |text| - next, 2
  {
    var arrayElem, expectComma := next, false;
    while true
      invariant next <= arrayElem <= |text|
      invariant ItemsEnd(text, next, false) == ItemsEnd(text, arrayElem, expectComma)
      decreases |text| - arrayElem
    {
      var t := GetToken(text, arrayElem);
      if t.kind == ArrayEnd {
        return true, t.end;
      }
      if expectComma {
        if t.kind == Comma {
          arrayElem := t.end;
        } else {
          return false, 0;
        }
      }
      var valid, elemEnd := IsValidInner(text, arrayElem);
      if !valid {
        return false, 0;
      }
      arrayElem, expectComma := elemEnd, true;
    }
  }

  /** The loop over object members */
  method ObjectIsValid(text: string, next: nat) returns (ok: bool, end: nat)
    requires next <= |text|
    ensures ok == MembersEnd(text, next, false).Some? && (ok ==> end == MembersEnd(text, next, false).value)
    decreases |text| - next, 2
  {
    var objNext, expectComma := next, false;
    while true
      invariant next <= objNext <= |text|
      invariant MembersEnd(text, next, false) == MembersEnd(text, objNext, expectComma)
      decreases |text| - objNext
    {
      var t := GetToken(text, objNext);
      if t.kind == ObjEnd {
        return true, t.end;
      }
      if expectComma {
        if t.kind != Comma {
          return false, 0;
        }
        t := GetToken(text, t.end);
      }
      if t.kind != String && t.kind != NoescString {
        return false, 0;
      }
      t := GetToken(text, t.end);
      if t.kind != Colon {
        return false, 0;
      }
      var valid, valueEnd := IsValidInner(text, t.end);
      if !valid {
        return false, 0;
      }
      objNext, expectComma := valueEnd, true;
    }
  }

  /** A whole text is one value. */
  ghost predicate IsJson(text: string)
  {
    exists v, e: nat :: Spells(text, 0, v, e) && e <= |text| && NextToken(text, e).kind == End
  }

  /** `s_json_is_valid` */
  method IsValid(text: string) returns (ok: bool)
    ensures ok <==> IsJson(text)
  {
    var valid, next := IsValidInner(text, 0);
    if !valid {
      return false;
    }
    var t := GetToken(text, next);
    ok := t.kind == End;
    if v: Value, e: nat :| Spells(text, 0, v, e) && e <= |text| && NextToken(text, e).kind == End {
      ValueComplete(text, 0, v, e);
    }
  }

  /** The leading value of a text, without the white space before it */
  function ValueText(text: string): Option<string>
  {
    var end := ValueEnd(text, 0);
    if end.None? then None else Some(text[NextToken(text, 0).start..end.value])
  }

  /** The text is some white space, the copy, and what follows the value; the copy does not start with white space. */
  predicate Isolates(text: string, w: string, copy: string, end: nat)
  {
    AllWs(w) && end <= |text| && text[..end] == w + copy && copy != "" && !WsChar(copy[0])
  }

  lemma {:induction false} CopyIsolated(text: string)
    requires ValueEnd(text, 0).Some?
    ensures Isolates(text, text[..NextToken(text, 0).start], ValueText(text).value, ValueEnd(text, 0).value)
  {
    var t, end := NextToken(text, 0), ValueEnd(text, 0).value;
    TokenPlace(text, 0);
    GenuineStarts(LexemeAt(text, t));
    assert text[..end] == text[..t.start] + text[t.start..end];
    assert text[t.start..end][0] == LexemeAt(text, t).text[0];
  }

  /** `s_json_get` */
  method Get(text: string) returns (r: Option<string>)
    ensures r == ValueText(text)
    ensures r.Some? <==> exists v, e: nat :: Spells(text, 0, v, e)
    ensures r.Some? ==> exists w, v, e: nat :: Spells(text, 0, v, e) && Isolates(text, w, r.value, e)
  {
    if ValueEnd(text, 0).Some? {
      ValidExactly(text, 0, ValueEnd(text, 0).value);
      CopyIsolated(text);
    } else if v: Value, e: nat :| Spells(text, 0, v, e) {
      ValueComplete(text, 0, v, e);
    }
    var ok, next := IsValidInner(text, 0);
    if ok {
      var t := GetToken(text, 0);
      return Some(text[t.start..next]);
    }
    return None;
  }

  lemma WholeSpelled(text: string, v: Value)
    requires Spells(text, 0, v, |text|)
    ensures IsJson(text)
  {
    EndOfText(text);
  }
}
