/** Reading named members of objects (sjson.c, oldmega.c). */
module JsonFields {
  import opened Wrappers
  import opened JsonLexer
  import opened JsonTokens
  import opened JsonGrammar
  import opened JsonStrings
  import opened JsonNumbers
  import opened JsonAccess
  import opened JsonData

  /** The value of the first field with a name */
  function FieldValue(fields: seq<Field>, name: string): Option<Json>
  {
    if fields == [] then None
    else if fields[0].name == name then Some(fields[0].value)
    else FieldValue(fields[1..], name)
  }

  lemma {:induction false} FieldValueAppend(xs: seq<Field>, ys: seq<Field>, name: string)
    ensures FieldValue(xs + ys, name) == if FieldValue(xs, name).Some? then FieldValue(xs, name)
      else FieldValue(ys, name)
    decreases xs
  {
    if xs == [] {
      assert xs + ys == ys;
    } else {
      assert (xs + ys)[1..] == xs[1..] + ys;
      FieldValueAppend(xs[1..], ys, name);
    }
  }

  predicate DistinctNames(fields: seq<Field>)
  {
    forall i, j | 0 <= i < j < |fields| :: fields[i].name != fields[j].name
  }

  lemma {:induction false} FieldValueAt(fields: seq<Field>, i: nat)
    requires DistinctNames(fields) && i < |fields|
    ensures FieldValue(fields, fields[i].name) == Some(fields[i].value)
    decreases i
  {
    if i > 0 {
      assert fields[0].name != fields[i].name;
      FieldValueAt(fields[1..], i - 1);
    }
  }

  lemma {:induction false} KeyEquals(f: Field, name: string)
    requires NulFree(f.name) && Storable(f.value) && NulFree(name)
    ensures CString(LexemeString(ToMember(f).key)) == CString(name) <==> f.name == name
  {
    KeyReadsBack(f.name);
    CStringOfNulFree(f.name);
    CStringOfNulFree(name);
  }

  /** The field at an index is the first with a name; there is none if the index is the number of fields. */
  predicate FirstField(fields: seq<Field>, name: string, i: nat)
  {
    FieldValue(fields, name) == if i < |fields| then Some(fields[i].value) else None
  }

  lemma {:induction false} FirstFieldCons(f: Field, rest: seq<Field>, name: string, i: nat)
    requires FirstField(rest, name, i)
    ensures FirstField([f] + rest, name, if f.name == name then 0 else 1 + i)
  {
    assert ([f] + rest)[1..] == rest;
  }

  lemma {:induction false} IndexCons(f: Field, rest: seq<Field>, name: string)
    requires StorableFields([f] + rest) && StorableFields(rest) && NulFree(f.name) && Storable(f.value) && NulFree(name)
    ensures MemberIndex(ToMembers([f] + rest), name) == if f.name == name then 0
      else 1 + MemberIndex(ToMembers(rest), name)
  {
    KeyEquals(f, name);
    assert ([f] + rest)[1..] == rest;
    var ms := ToMembers([f] + rest);
    assert ms == [ToMember(f)] + ToMembers(rest) && ms[1..] == ToMembers(rest);
  }

  lemma {:induction false} IndexOfField(fields: seq<Field>, name: string)
    requires StorableFields(fields) && NulFree(name)
    ensures FirstField(fields, name, MemberIndex(ToMembers(fields), name))
    decreases fields
  {
    if fields != [] {
      var f, rest := fields[0], fields[1..];
      assert fields == [f] + rest;
      IndexOfField(rest, name);
      IndexCons(f, rest, name);
      FirstFieldCons(f, rest, name, MemberIndex(ToMembers(rest), name));
    }
  }

  /** A lookup in an object finds the value of the first field with the name. */
  lemma {:induction false} FieldLookup(text: string, pos: nat, fields: seq<Field>, end: nat, name: string)
    requires pos <= |text| && StorableFields(fields) && NulFree(name)
    requires Spells(text, pos, ToValue(JObject(fields)), end)
    ensures match FieldValue(fields, name)
      case None => Lookup(text, pos, name) == None
      case Some(j) =>
        Storable(j) && Lookup(text, pos, name).Some?
        && SpelledAt(text, Lookup(text, pos, name).value, ToValue(j))
  {
    LookupFirst(text, pos, ToMembers(fields), end, name);
    IndexOfField(fields, name);
    var i := MemberIndex(ToMembers(fields), name);
    if i < |fields| {
      ToMembersAt(fields, i);
    }
  }

  /** What is found at a value depends on what was written there. */
  lemma {:induction false} SpelledReads(text: string, at: nat, j: Json)
    requires Storable(j) && SpelledAt(text, at, ToValue(j))
    ensures at <= |text| && Reads(text, at, j)
  {
    var e: nat :| Spells(text, at, ToValue(j), e);
    ReadsBack(text, at, j, e);
  }

  /** The string at a position as a caller reads it, up to the first NUL */
  function CStringAt(text: string, pos: nat): Option<string>
    requires pos <= |text|
  {
    var s := StringAt(text, pos);
    if s.Some? then Some(CString(s.value)) else None
  }

  /** `s_json_get_string`, read as a C string */
  method GetCString(text: string, pos: nat) returns (r: Option<string>)
    requires pos <= |text|
    ensures r == CStringAt(text, pos)
  {
    var s := GetString(text, pos);
    r := if s.Some? then Some(CString(s.value)) else None;
  }

  lemma {:induction false} SpelledString(text: string, at: nat, j: Json)
    requires Storable(j) && SpelledAt(text, at, ToValue(j))
    ensures at <= |text| && CStringAt(text, at) == if j.JString? then Some(j.s) else None
  {
    SpelledReads(text, at, j);
    if j.JString? {
      CStringOfNulFree(j.s);
    }
  }

  /** `s_json_get_member_string` */
  method GetMemberString(text: string, pos: nat, name: string) returns (r: Option<string>)
    requires pos <= |text|
    ensures r == MemberString(text, pos, name)
  {
    var member := GetMember(text, pos, name);
    if member.Some? {
      r := GetCString(text, member.value);
    } else {
      r := None;
    }
  }

  function MemberString(text: string, pos: nat, name: string): Option<string>
    requires pos <= |text|
  {
    var v := Lookup(text, pos, name);
    if v.Some? then CStringAt(text, v.value) else None
  }

  /** A member string is what a string field holds. */
  lemma {:induction false} FieldString(text: string, pos: nat, fields: seq<Field>, end: nat, name: string)
    requires pos <= |text| && StorableFields(fields) && NulFree(name)
    requires Spells(text, pos, ToValue(JObject(fields)), end)
    ensures MemberString(text, pos, name) ==
      match FieldValue(fields, name) case Some(JString(s)) => Some(s) case _ => None
  {
    FieldLookup(text, pos, fields, end, name);
    if FieldValue(fields, name).Some? {
      SpelledString(text, Lookup(text, pos, name).value, FieldValue(fields, name).value);
    }
  }

  /** `s_json_get_member_int` */
  method GetMemberInt(text: string, pos: nat, name: string, fallback: int) returns (r: int)
    requires pos <= |text|
    ensures r == MemberInt(text, pos, name, fallback)
  {
    var member := GetMember(text, pos, name);
    if member.Some? {
      r := GetInt(text, member.value, fallback);
    } else {
      r := fallback;
    }
  }

  function MemberInt(text: string, pos: nat, name: string, fallback: int): int
    requires pos <= |text|
  {
    var v := Lookup(text, pos, name);
    if v.Some? then IntAt(text, v.value, fallback) else fallback
  }

  /** A member integer is what an integer field holds, and the fallback for any other field and for none. */
  lemma {:induction false} FieldInt(text: string, pos: nat, fields: seq<Field>, end: nat, name: string, fallback: int)
    requires pos <= |text| && StorableFields(fields) && NulFree(name)
    requires Spells(text, pos, ToValue(JObject(fields)), end)
    ensures MemberInt(text, pos, name, fallback) ==
      match FieldValue(fields, name) case Some(JInt(n)) => n case _ => fallback
  {
    FieldLookup(text, pos, fields, end, name);
    if FieldValue(fields, name).Some? {
      SpelledReads(text, Lookup(text, pos, name).value, FieldValue(fields, name).value);
    }
  }

  // ---- Texts that are C strings of bytes ----

  predicate ByteChar(c: char)
  {
    '\0' < c < '\U{100}'
  }

  /** All characters are bytes other than NUL. */
  predicate CText(s: string)
  {
    forall i | 0 <= i < |s| :: ByteChar(s[i])
  }

  /** All strings and names are such texts. */
  predicate Clean(j: Json)
  {
    match j
    case JString(s) => CText(s)
    case JArray(items) => forall i | 0 <= i < |items| :: Clean(items[i])
    case JObject(fields) => forall i | 0 <= i < |fields| :: CText(fields[i].name) && Clean(fields[i].value)
    case _ => true
  }

  predicate CleanItems(items: seq<Json>)
  {
    forall i | 0 <= i < |items| :: Clean(items[i])
  }

  predicate CleanFields(fields: seq<Field>)
  {
    forall i | 0 <= i < |fields| :: CText(fields[i].name) && Clean(fields[i].value)
  }

  lemma CTextNulFree(s: string)
    requires CText(s)
    ensures NulFree(s)
  {
  }

  lemma {:induction false} CleanStorable(j: Json)
    requires Clean(j)
    ensures Storable(j)
    decreases j
  {
    match j
    case JArray(items) =>
      forall i | 0 <= i < |items| ensures Storable(items[i]) {
        CleanStorable(items[i]);
      }
    case JObject(fields) =>
      forall i | 0 <= i < |fields| ensures NulFree(fields[i].name) && Storable(fields[i].value) {
        CTextNulFree(fields[i].name);
        CleanStorable(fields[i].value);
      }
    case _ =>
  }

  predicate AllCText(xs: seq<Lexeme>)
  {
    forall i | 0 <= i < |xs| :: CText(xs[i].text)
  }

  lemma AllCTextAppend(xs: seq<Lexeme>, ys: seq<Lexeme>)
    requires AllCText(xs) && AllCText(ys)
    ensures AllCText(xs + ys)
  {
  }

  lemma {:induction false} ConcatCText(xs: seq<Lexeme>)
    requires AllCText(xs)
    ensures CText(Concat(xs))
  {
    if xs != [] {
      ConcatCText(xs[1..]);
    }
  }

  lemma {:induction false} EscapeCText(v: string, i: nat)
    requires CText(v) && NulFree(v) && i <= |v|
    ensures CText(EscapeFrom(v, i))
    decreases |v| - i
  {
    if i < |v| {
      var (part, n) := EscapeUnit(v, i);
      EscapeUnfold(v, i);
      EscapeCText(v, n);
    }
  }

  lemma StringCText(v: string)
    requires CText(v) && NulFree(v)
    ensures CText(StringLexeme(v).text)
  {
    EscapeCText(v, 0);
  }

  lemma IntCText(n: int)
    ensures CText(IntText(n))
  {
    DecimalShape(if n < 0 then -n else n);
  }

  lemma {:induction false} FlatCText(j: Json)
    requires Clean(j) && Storable(j)
    ensures AllCText(Flat(ToValue(j)))
    decreases j, 1
  {
    match j
    case JInt(n) => IntCText(n);
    case JString(s) => StringCText(s);
    case JArray(items) =>
      ItemsCText(items, false);
      AllCTextAppend([Mark(ArrayStart)], FlatItems(ToValues(items), false));
    case JObject(fields) =>
      FieldsCText(fields, false);
      AllCTextAppend([Mark(ObjStart)], FlatMembers(ToMembers(fields), false));
    case _ =>
  }

  lemma {:induction false} ItemsCText(items: seq<Json>, comma: bool)
    requires CleanItems(items) && StorableItems(items)
    ensures AllCText(FlatItems(ToValues(items), comma))
    decreases items, 0
  {
    if items != [] {
      var vs := ToValues(items);
      assert vs[1..] == ToValues(items[1..]);
      FlatCText(items[0]);
      ItemsCText(items[1..], true);
      AllCTextAppend(Flat(vs[0]), FlatItems(vs[1..], true));
      AllCTextAppend(Separator(comma), Flat(vs[0]) + FlatItems(vs[1..], true));
    }
  }

  lemma {:induction false} FieldCText(f: Field)
    requires CText(f.name) && NulFree(f.name) && Clean(f.value) && Storable(f.value)
    ensures AllCText(FlatMember(ToMember(f)))
    decreases f, 0
  {
    FlatCText(f.value);
    StringCText(f.name);
    AllCTextAppend([ToMember(f).key, Mark(Colon)], Flat(ToMember(f).value));
  }

  lemma {:induction false} FieldsCText(fields: seq<Field>, comma: bool)
    requires CleanFields(fields) && StorableFields(fields)
    ensures AllCText(FlatMembers(ToMembers(fields), comma))
    decreases fields, 0
  {
    if fields != [] {
      var ms := ToMembers(fields);
      assert ms[1..] == ToMembers(fields[1..]);
      FieldCText(fields[0]);
      FieldsCText(fields[1..], true);
      AllCTextAppend(FlatMember(ms[0]), FlatMembers(ms[1..], true));
      AllCTextAppend(Separator(comma), FlatMember(ms[0]) + FlatMembers(ms[1..], true));
    }
  }

  /** The text of clean data is a C string of bytes. */
  lemma {:induction false} TextIsCText(j: Json)
    requires Clean(j)
    ensures Storable(j) && CText(Text(j))
  {
    CleanStorable(j);
    FlatCText(j);
    ConcatCText(Flat(ToValue(j)));
  }

  lemma {:induction false} ObjectStarts(fields: seq<Field>, text: string)
    requires StorableFields(fields) && text == Text(JObject(fields))
    ensures text != "" && text[0] == '{' && NextToken(text, 0) == Lexed(ObjStart, 0, 1)
  {
    var rest := FlatMembers(ToMembers(fields), false);
    MarkGenuine(ObjStart);
    assert Flat(ToValue(JObject(fields)))[1..] == rest;
    assert text == "{" + Concat(rest);
    assert OccursAt(text, 0, "{");
    TokenScanned(text, 0, Mark(ObjStart), 1);
  }

  /** The text of an object is isolated as it is. */
  lemma ObjectIsolated(fields: seq<Field>, text: string)
    requires StorableFields(fields) && text == Text(JObject(fields))
      && Spells(text, 0, ToValue(JObject(fields)), |text|)
    ensures ValueText(text) == Some(text)
  {
    ObjectStarts(fields, text);
    ValueComplete(text, 0, ToValue(JObject(fields)), |text|);
    assert text[0..|text|] == text;
  }

  // ---- How members are written ----

  /** Lower case letters and underscores, which need no escape */
  predicate SimpleName(name: string)
  {
    forall i | 0 <= i < |name| :: 'a' <= name[i] <= 'z' || name[i] == '_'
  }

  lemma SimpleLiteral(name: string)
    requires SimpleName(name) && name != ""
    ensures NulFree(name) && Literal(name) == "\"" + name + "\""
  {
    assert name[0..|name|] == name && EscapeFrom(name, |name|) == "";
    RunStopUnique(name, 0, |name|);
  }

  /** A name in quotes, a colon and a text */
  function Named(name: string, text: string): string
  {
    "\"" + name + "\":" + text
  }

  lemma NamedLiteral(name: string, text: string)
    requires SimpleName(name) && name != ""
    ensures NulFree(name) && Literal(name) + ":" + text == Named(name, text)
  {
    SimpleLiteral(name);
    assert "\"" + name + "\"" + ":" == "\"" + name + "\":";
  }
}
