/** Iterating over arrays and objects in a text (sjson.c). */
module JsonAccess {
  import opened Wrappers
  import opened JsonLexer
  import opened JsonTokens
  import opened JsonGrammar
  import opened JsonStrings

  // ---- Elements ----

  function ElementFirst(text: string, pos: nat): (r: Option<nat>)
    requires pos <= |text|
    ensures r.Some? ==> r.value <= |text|
  {
    var t := NextToken(text, pos);
    if t.kind == ArrayStart && NextToken(text, t.end).kind != ArrayEnd then Some(t.end) else None
  }

  /** The element after a value that ends at a position */
  function ElementAfter(text: string, comma: nat): (r: Option<nat>)
    requires comma <= |text|
    ensures r.Some? ==> comma < r.value <= |text|
  {
    var t := NextToken(text, comma);
    if t.kind == Comma then Some(t.end) else None
  }

  function ElementNext(text: string, iter: nat): (r: Option<nat>)
    requires iter <= |text|
    ensures r.Some? ==> iter < r.value <= |text|
  {
    var end := ValueEnd(text, iter);
    if end.None? then None else ElementAfter(text, end.value)
  }

  /** Where the iteration stops from some point on */
  function ElementsFrom(text: string, elem: Option<nat>): (at: seq<nat>)
    requires elem.Some? ==> elem.value <= |text|
    ensures forall i | 0 <= i < |at| :: at[i] <= |text|
    decreases if elem.Some? then |text| + 1 - elem.value else 0
  {
    if elem.None? then [] else [elem.value] + ElementsFrom(text, ElementNext(text, elem.value))
  }

  function Elements(text: string, pos: nat): (at: seq<nat>)
    requires pos <= |text|
    ensures forall i | 0 <= i < |at| :: at[i] <= |text|
  {
    ElementsFrom(text, ElementFirst(text, pos))
  }

  /** Some values stand at some positions. */
  ghost predicate Listed(text: string, at: seq<nat>, items: seq<Value>)
  {
    |at| == |items| && forall i | 0 <= i < |at| :: SpelledAt(text, at[i], items[i])
  }

  ghost predicate SpelledAt(text: string, at: nat, v: Value)
  {
    at <= |text| && exists e: nat :: Spells(text, at, v, e)
  }

  lemma ListedCons(text: string, a: nat, at: seq<nat>, items: seq<Value>)
    requires items != [] && SpelledAt(text, a, items[0]) && Listed(text, at, items[1..])
    ensures Listed(text, [a] + at, items)
  {
    forall i | 0 <= i < |items| ensures SpelledAt(text, ([a] + at)[i], items[i]) {
      if i > 0 {
        assert items[i] == items[1..][i - 1];
      }
    }
  }

  lemma {:induction false} ElementsRest(text: string, mid: nat, items: seq<Value>, end: nat)
    requires mid <= |text| && ProperItems(items) && After(text, mid, FlatItems(items, true)) == Some(end)
    ensures Listed(text, ElementsFrom(text, ElementAfter(text, mid)), items)
    decreases items
  {
    if items == [] {
      AfterOne(text, mid, Mark(ArrayEnd));
    } else {
      assert items == [items[0]] + items[1..];
      var at, mid2 := ItemsSplit(text, mid, items[0], items[1..], true);
      ElementsHere(text, at, mid2, items, end);
    }
  }

  lemma {:induction false} ElementsHere(text: string, at: nat, mid: nat, items: seq<Value>, end: nat)
    requires items != [] && ProperItems(items) && at <= mid <= |text| && Spells(text, at, items[0], mid)
    requires After(text, mid, FlatItems(items[1..], true)) == Some(end)
    ensures Listed(text, ElementsFrom(text, Some(at)), items)
    decreases items, 0
  {
    ValueComplete(text, at, items[0], mid);
    ElementsRest(text, mid, items[1..], end);
    ListedCons(text, at, ElementsFrom(text, ElementAfter(text, mid)), items);
  }

  lemma ElementsOpen(text: string, next: nat, items: seq<Value>, end: nat)
    requires next <= |text| && ProperItems(items) && After(text, next, FlatItems(items, false)) == Some(end)
    ensures items == [] <==> NextToken(text, next).kind == ArrayEnd
    ensures items != [] ==> Listed(text, ElementsFrom(text, Some(next)), items)
  {
    if items == [] {
      AfterOne(text, next, Mark(ArrayEnd));
    } else {
      assert items == [items[0]] + items[1..];
      var at, mid := ItemsSplit(text, next, items[0], items[1..], false);
      ElementsHere(text, at, mid, items, end);
    }
  }

  /** On an array, the iteration stops at exactly the elements, in order. */
  lemma ElementsExactly(text: string, pos: nat, items: seq<Value>, end: nat)
    requires pos <= |text| && Spells(text, pos, Array(items), end)
    ensures Listed(text, Elements(text, pos), items)
  {
    ArrayOpens(text, pos, items, end);
    ElementsOpen(text, NextToken(text, pos).end, items, end);
  }

  /** `s_json_get_element_first` */
  method GetElementFirst(text: string, pos: nat) returns (r: Option<nat>)
    requires pos <= |text|
    ensures r == ElementFirst(text, pos)
  {
    var t := GetToken(text, pos);
    if t.kind != ArrayStart {
      return None;
    }
    var t2 := GetToken(text, t.end);
    if t2.kind == ArrayEnd {
      return None;
    }
    return Some(t.end);
  }

  /** `s_json_get_element_next` */
  method GetElementNext(text: string, iter: nat) returns (r: Option<nat>)
    requires iter <= |text|
    ensures r == ElementNext(text, iter)
  {
    var ok, end := IsValidInner(text, iter);
    if !ok {
      return None;
    }
    var t := GetToken(text, end);
    if t.kind != Comma {
      return None;
    }
    return Some(t.end);
  }

  /** `s_json_get_element` */
  method GetElement(text: string, pos: nat, index: nat) returns (r: Option<nat>)
    requires pos <= |text|
    ensures r == if index < |Elements(text, pos)| then Some(Elements(text, pos)[index]) else None
  {
    var currentIndex := 0;
    r := GetElementFirst(text, pos);
    while r.Some?
      invariant currentIndex <= index && currentIndex <= |Elements(text, pos)| && (r.Some? ==> r.value <= |text|)
      invariant ElementsFrom(text, r) == Elements(text, pos)[currentIndex..]
      decreases if r.Some? then |text| + 1 - r.value else 0
    {
      if currentIndex == index {
        return r;
      }
      DropOne(Elements(text, pos), currentIndex, r.value, ElementsFrom(text, ElementNext(text, r.value)));
      currentIndex := currentIndex + 1;
      r := GetElementNext(text, r.value);
    }
  }

  /** `s_json_get_elements` */
  method GetElements(text: string, pos: nat) returns (arr: seq<nat>)
    requires pos <= |text|
    ensures arr == Elements(text, pos)
  {
    arr := [];
    var elem := GetElementFirst(text, pos);
    while elem.Some?
      invariant elem.Some? ==> elem.value <= |text|
      invariant Elements(text, pos) == arr + ElementsFrom(text, elem)
      decreases if elem.Some? then |text| + 1 - elem.value else 0
    {
      SnocCons(arr, elem.value, ElementsFrom(text, ElementNext(text, elem.value)));
      arr := arr + [elem.value];
      elem := GetElementNext(text, elem.value);
    }
  }

  // ---- Members ----

  /** A name at a position and the position of its value, if a name and a colon stand there */
  function NamedValue(text: string, key: nat): (r: Option<(nat, nat)>)
    requires key <= |text|
    ensures r.Some? ==> r.value.0 == key < r.value.1 <= |text|
  {
    var val := MemberValue(text, NextToken(text, key));
    if val.None? then None else Some((key, val.value))
  }

  function MemberFirst(text: string, pos: nat): (r: Option<(nat, nat)>)
    requires pos <= |text|
    ensures r.Some? ==> r.value.0 < r.value.1 <= |text|
  {
    var t := NextToken(text, pos);
    if t.kind == ObjStart then NamedValue(text, t.end) else None
  }

  /** The member after a value that ends at a position */
  function MemberAfter(text: string, comma: nat): (r: Option<(nat, nat)>)
    requires comma <= |text|
    ensures r.Some? ==> comma < r.value.0 < r.value.1 <= |text|
  {
    var t := NextToken(text, comma);
    if t.kind == Comma then NamedValue(text, t.end) else None
  }

  function MemberNext(text: string, value: nat): (r: Option<(nat, nat)>)
    requires value <= |text|
    ensures r.Some? ==> value < r.value.0 < r.value.1 <= |text|
  {
    var end := ValueEnd(text, value);
    if end.None? then None else MemberAfter(text, end.value)
  }

  /** Where the iteration stops from some point on: names and values */
  function MembersFrom(text: string, m: Option<(nat, nat)>): seq<(nat, nat)>
    requires m.Some? ==> m.value.0 < m.value.1 <= |text|
    decreases if m.Some? then |text| + 1 - m.value.1 else 0
  {
    if m.None? then [] else [m.value] + MembersFrom(text, MemberNext(text, m.value.1))
  }

  function Members(text: string, pos: nat): seq<(nat, nat)>
    requires pos <= |text|
  {
    MembersFrom(text, MemberFirst(text, pos))
  }

  /** What a string token stands for */
  function LexemeString(x: Lexeme): string
  {
    if Quoted(x.text) && IsBody(Inner(x.text)) then Decode(Inner(x.text)) else ""
  }

  lemma {:induction false} StringOfLexeme(text: string, pos: nat)
    requires pos <= |text| && StringKind(NextToken(text, pos).kind)
    ensures StringAt(text, pos) == Some(LexemeString(LexemeAt(text, NextToken(text, pos))))
  {
    BodyLemma(text, pos);
  }

  ghost predicate MemberSpelledAt(text: string, at: (nat, nat), m: Member)
  {
    at.0 <= |text| && StringAt(text, at.0) == Some(LexemeString(m.key)) && SpelledAt(text, at.1, m.value)
  }

  ghost predicate MembersListed(text: string, at: seq<(nat, nat)>, members: seq<Member>)
  {
    |at| == |members| && forall i | 0 <= i < |at| :: MemberSpelledAt(text, at[i], members[i])
  }

  lemma MembersListedCons(text: string, a: (nat, nat), at: seq<(nat, nat)>, m: Member, more: seq<Member>)
    requires MemberSpelledAt(text, a, m) && MembersListed(text, at, more)
    ensures MembersListed(text, [a] + at, [m] + more)
  {
    var places, members := [a] + at, [m] + more;
    forall i | 0 <= i < |members| ensures MemberSpelledAt(text, places[i], members[i]) {
      if i > 0 {
        assert places[i] == at[i - 1] && members[i] == more[i - 1];
      }
    }
  }

  lemma {:induction false} MembersRest(text: string, mid: nat, members: seq<Member>, end: nat)
    requires mid <= |text| && ProperMembers(members) && After(text, mid, FlatMembers(members, true)) == Some(end)
    ensures MembersListed(text, MembersFrom(text, MemberAfter(text, mid)), members)
    decreases |members|, 1
  {
    if members == [] {
      AfterOne(text, mid, Mark(ObjEnd));
    } else {
      var m, more := members[0], members[1..];
      assert members == [m] + more;
      var at, val, mid2 := MembersSplit(text, mid, m, more, true);
      MembersHere(text, at, val, mid2, m, more, end);
    }
  }

  lemma {:induction false} MembersHere(text: string, at: nat, val: nat, mid: nat, m: Member, more: seq<Member>,
      end: nat)
    requires ProperMembers(more) && at < val <= mid <= |text|
    requires StringKind(NextToken(text, at).kind) && LexemeAt(text, NextToken(text, at)) == m.key
    requires Spells(text, val, m.value, mid) && After(text, mid, FlatMembers(more, true)) == Some(end)
    ensures MembersListed(text, MembersFrom(text, Some((at, val))), [m] + more)
    decreases |more| + 1, 0
  {
    StringOfLexeme(text, at);
    ValueComplete(text, val, m.value, mid);
    MembersRest(text, mid, more, end);
    MembersListedCons(text, (at, val), MembersFrom(text, MemberAfter(text, mid)), m, more);
  }

  lemma MembersOpen(text: string, next: nat, members: seq<Member>, end: nat)
    requires next <= |text| && ProperMembers(members) && After(text, next, FlatMembers(members, false)) == Some(end)
    ensures members == [] ==> NextToken(text, next).kind == ObjEnd
    ensures members != [] ==> exists val: nat ::
      MemberAt(text, next, false, next, val) && MembersListed(text, MembersFrom(text, Some((next, val))), members)
  {
    if members == [] {
      AfterOne(text, next, Mark(ObjEnd));
    } else {
      var m, more := members[0], members[1..];
      assert members == [m] + more;
      var at, val, mid := MembersSplit(text, next, m, more, false);
      MembersHere(text, at, val, mid, m, more, end);
    }
  }

  /** On an object, the iteration stops at exactly the members, in order. */
  lemma MembersExactly(text: string, pos: nat, members: seq<Member>, end: nat)
    requires pos <= |text| && Spells(text, pos, Object(members), end)
    ensures MembersListed(text, Members(text, pos), members)
  {
    ObjectOpens(text, pos, members, end);
    MembersOpen(text, NextToken(text, pos).end, members, end);
  }

  /** `s_json_get_member_first` */
  method GetMemberFirst(text: string, pos: nat) returns (r: Option<(nat, nat)>)
    requires pos <= |text|
    ensures r == MemberFirst(text, pos)
  {
    var key := GetToken(text, pos);
    if key.kind != ObjStart {
      return None;
    }
    var colon := GetToken(text, key.end);
    if colon.kind != String && colon.kind != NoescString {
      return None;
    }
    var val := GetToken(text, colon.end);
    if val.kind != Colon {
      return None;
    }
    return Some((key.end, val.end));
  }

  /** `s_json_get_member_next` */
  method GetMemberNext(text: string, value: nat) returns (r: Option<(nat, nat)>)
    requires value <= |text|
    ensures r == MemberNext(text, value)
  {
    var ok, comma := IsValidInner(text, value);
    if !ok {
      return None;
    }
    var key := GetToken(text, comma);
    if key.kind != Comma {
      return None;
    }
    var colon := GetToken(text, key.end);
    if colon.kind != String && colon.kind != NoescString {
      return None;
    }
    var val := GetToken(text, colon.end);
    if val.kind != Colon {
      return None;
    }
    return Some((key.end, val.end));
  }

  /** A string stands at a position and, decoded, equals a name as a C string. */
  predicate KeyIs(text: string, key: nat, name: string)
    requires key <= |text|
  {
    StringAt(text, key).Some? && CString(StringAt(text, key).value) == CString(name)
  }

  /** The value of the first member from some point on whose key equals a name */
  function LookupFrom(text: string, m: Option<(nat, nat)>, name: string): (r: Option<nat>)
    requires m.Some? ==> m.value.0 < m.value.1 <= |text|
    ensures r.Some? ==> r.value <= |text|
    decreases if m.Some? then |text| + 1 - m.value.1 else 0
  {
    if m.None? then None
    else if KeyIs(text, m.value.0, name) then Some(m.value.1)
    else LookupFrom(text, MemberNext(text, m.value.1), name)
  }

  function Lookup(text: string, pos: nat, name: string): (r: Option<nat>)
    requires pos <= |text|
    ensures r.Some? ==> r.value <= |text|
  {
    LookupFrom(text, MemberFirst(text, pos), name)
  }

  /** `s_json_get_member` */
  method GetMember(text: string, pos: nat, name: string) returns (r: Option<nat>)
    requires pos <= |text|
    ensures r == Lookup(text, pos, name)
  {
    var m: Option<(nat, nat)> := GetMemberFirst(text, pos);
    while m.Some?
      invariant m.Some? ==> m.value.0 < m.value.1 <= |text|
      invariant Lookup(text, pos, name) == LookupFrom(text, m, name)
      decreases if m.Some? then |text| + 1 - m.value.1 else 0
    {
      var same := StringMatch(text, m.value.0, name);
      if same {
        return Some(m.value.1);
      }
      m := GetMemberNext(text, m.value.1);
    }
    return None;
  }

  /** The first of some members whose key equals a name, or their number */
  function MemberIndex(members: seq<Member>, name: string): (i: nat)
    ensures i <= |members|
    ensures i < |members| ==> CString(LexemeString(members[i].key)) == CString(name)
    ensures forall j | 0 <= j < i :: CString(LexemeString(members[j].key)) != CString(name)
  {
    if members == [] then 0
    else if CString(LexemeString(members[0].key)) == CString(name) then 0
    else 1 + MemberIndex(members[1..], name)
  }

  /** What a lookup finds: the value of a given member */
  ghost predicate Finds(text: string, r: Option<nat>, members: seq<Member>, i: nat)
    requires i <= |members|
  {
    if i < |members| then r.Some? && SpelledAt(text, r.value, members[i].value) else r.None?
  }

  lemma {:induction false} LookupRest(text: string, mid: nat, members: seq<Member>, end: nat, name: string)
    requires mid <= |text| && ProperMembers(members) && After(text, mid, FlatMembers(members, true)) == Some(end)
    ensures Finds(text, LookupFrom(text, MemberAfter(text, mid), name), members, MemberIndex(members, name))
    decreases members
  {
    if members == [] {
      AfterOne(text, mid, Mark(ObjEnd));
    } else {
      assert members == [members[0]] + members[1..];
      var at, val, mid2 := MembersSplit(text, mid, members[0], members[1..], true);
      StringOfLexeme(text, at);
      assert MemberAfter(text, mid) == Some((at, val));
      LookupHere(text, at, val, mid2, members, end, name);
    }
  }

  lemma {:induction false} LookupHere(text: string, at: nat, val: nat, mid: nat, members: seq<Member>, end: nat,
      name: string)
    requires members != [] && ProperMembers(members) && at < val <= mid <= |text|
    requires StringAt(text, at) == Some(LexemeString(members[0].key)) && Spells(text, val, members[0].value, mid)
    requires After(text, mid, FlatMembers(members[1..], true)) == Some(end)
    ensures Finds(text, LookupFrom(text, Some((at, val)), name), members, MemberIndex(members, name))
    decreases members, 0
  {
    ValueComplete(text, val, members[0].value, mid);
    if CString(LexemeString(members[0].key)) != CString(name) {
      LookupRest(text, mid, members[1..], end, name);
      assert MemberNext(text, val) == MemberAfter(text, mid);
    }
  }

  lemma LookupOpen(text: string, next: nat, members: seq<Member>, end: nat, name: string)
    requires next <= |text| && ProperMembers(members) && After(text, next, FlatMembers(members, false)) == Some(end)
    ensures members == [] ==> NextToken(text, next).kind == ObjEnd
    ensures members != [] ==> exists val: nat ::
      && MemberAt(text, next, false, next, val)
      && Finds(text, LookupFrom(text, Some((next, val)), name), members, MemberIndex(members, name))
  {
    if members == [] {
      AfterOne(text, next, Mark(ObjEnd));
    } else {
      assert members == [members[0]] + members[1..];
      var at, val, mid := MembersSplit(text, next, members[0], members[1..], false);
      StringOfLexeme(text, at);
      LookupHere(text, at, val, mid, members, end, name);
    }
  }

  /** On an object, the lookup finds the first member whose decoded key equals the name, and nothing if
      there is none. */
  lemma {:induction false} LookupFirst(text: string, pos: nat, members: seq<Member>, end: nat, name: string)
    requires pos <= |text| && Spells(text, pos, Object(members), end)
    ensures Finds(text, Lookup(text, pos, name), members, MemberIndex(members, name))
  {
    ObjectOpens(text, pos, members, end);
    LookupOpen(text, NextToken(text, pos).end, members, end, name);
  }
}
