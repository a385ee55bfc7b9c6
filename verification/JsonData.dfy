/** JSON data: how it is written as tokens, and what it means for a text to be read as given data. */
module JsonData {
  import opened Wrappers
  import opened JsonLexer
  import opened JsonTokens
  import opened JsonGrammar
  import opened JsonStrings
  import opened JsonNumbers
  import opened JsonAccess

  datatype Json = JNull | JBool(b: bool) | JInt(n: int) | JString(s: string)
                | JArray(items: seq<Json>) | JObject(fields: seq<Field>)

  datatype Field = Field(name: string, value: Json)

  /** Strings and names are C strings. */
  predicate Storable(j: Json)
  {
    match j
    case JString(s) => NulFree(s)
    case JArray(items) => forall i | 0 <= i < |items| :: Storable(items[i])
    case JObject(fields) => forall i | 0 <= i < |fields| :: NulFree(fields[i].name) && Storable(fields[i].value)
    case _ => true
  }

  predicate StorableItems(items: seq<Json>)
  {
    forall i | 0 <= i < |items| :: Storable(items[i])
  }

  predicate StorableFields(fields: seq<Field>)
  {
    forall i | 0 <= i < |fields| :: NulFree(fields[i].name) && Storable(fields[i].value)
  }

  // ---- Written as tokens ----

  function WordLexeme(k: Kind): Lexeme
  {
    Lexeme(k, Spelling(k))
  }

  function ToValue(j: Json): Value
    requires Storable(j)
  {
    match j
    case JNull => Scalar(WordLexeme(Null))
    case JBool(b) => Scalar(WordLexeme(if b then True else False))
    case JInt(n) => Scalar(IntLexeme(n))
    case JString(s) => Scalar(StringLexeme(s))
    case JArray(items) => Array(ToValues(items))
    case JObject(fields) => Object(ToMembers(fields))
  }

  function ToValues(items: seq<Json>): (vs: seq<Value>)
    requires StorableItems(items)
    ensures |vs| == |items|
  {
    if items == [] then [] else [ToValue(items[0])] + ToValues(items[1..])
  }

  function ToMember(f: Field): Member
    requires NulFree(f.name) && Storable(f.value)
  {
    Member(StringLexeme(f.name), ToValue(f.value))
  }

  function ToMembers(fields: seq<Field>): (ms: seq<Member>)
    requires StorableFields(fields)
    ensures |ms| == |fields|
  {
    if fields == [] then [] else [ToMember(fields[0])] + ToMembers(fields[1..])
  }

  lemma {:induction false} ToValuesAt(items: seq<Json>, i: nat)
    requires StorableItems(items) && i < |items|
    ensures ToValues(items)[i] == ToValue(items[i])
  {
    if i > 0 {
      ToValuesAt(items[1..], i - 1);
    }
  }

  lemma {:induction false} ToMembersAt(fields: seq<Field>, i: nat)
    requires StorableFields(fields) && i < |fields|
    ensures ToMembers(fields)[i] == ToMember(fields[i])
  {
    if i > 0 {
      ToMembersAt(fields[1..], i - 1);
    }
  }

  lemma WordGenuine(k: Kind)
    requires k in {True, False, Null}
    ensures Genuine(WordLexeme(k))
  {
    RunWords(k);
  }

  lemma MarkGenuine(k: Kind)
    requires Real(k) && !ScalarKind(k)
    ensures Genuine(Mark(k))
  {
    RunOne(Mark(k).text[0]);
    assert Mark(k).text == [Mark(k).text[0]];
  }

  lemma GenuineAppend(xs: seq<Lexeme>, ys: seq<Lexeme>)
    requires AllGenuine(xs) && AllGenuine(ys)
    ensures AllGenuine(xs + ys)
  {
  }

  /** The value made for some data is proper, and its tokens are genuine. */
  lemma {:induction false} ValueIsGood(j: Json)
    requires Storable(j)
    ensures Proper(ToValue(j)) && AllGenuine(Flat(ToValue(j)))
    decreases j, 1
  {
    match j
    case JNull => WordGenuine(Null);
    case JBool(b) => WordGenuine(if b then True else False);
    case JInt(n) => IntLexemeGenuine(n);
    case JString(s) => StringLexemeGenuine(s);
    case JArray(items) =>
      ItemsAreGood(items, false);
      MarkGenuine(ArrayStart);
      GenuineAppend([Mark(ArrayStart)], FlatItems(ToValues(items), false));
    case JObject(fields) =>
      FieldsAreGood(fields, false);
      MarkGenuine(ObjStart);
      GenuineAppend([Mark(ObjStart)], FlatMembers(ToMembers(fields), false));
  }

  lemma GenuineJoin(comma: bool, xs: seq<Lexeme>, rest: seq<Lexeme>)
    requires AllGenuine(xs) && AllGenuine(rest)
    ensures AllGenuine(Separator(comma) + (xs + rest))
  {
    MarkGenuine(Comma);
    GenuineAppend(xs, rest);
    GenuineAppend(Separator(comma), xs + rest);
  }

  lemma {:induction false} ItemsAreGood(items: seq<Json>, comma: bool)
    requires StorableItems(items)
    ensures ProperItems(ToValues(items)) && AllGenuine(FlatItems(ToValues(items), comma))
    decreases items, 0
  {
    if items == [] {
      MarkGenuine(ArrayEnd);
    } else {
      var v, more := ToValue(items[0]), ToValues(items[1..]);
      ValueIsGood(items[0]);
      ItemsAreGood(items[1..], true);
      ProperCons(v, more);
      FlatItemsCons(v, more, comma);
      GenuineJoin(comma, Flat(v), FlatItems(more, true));
    }
  }

  lemma ProperCons(v: Value, more: seq<Value>)
    requires Proper(v) && ProperItems(more)
    ensures ProperItems([v] + more)
  {
  }

  lemma {:induction false} FieldIsGood(f: Field)
    requires NulFree(f.name) && Storable(f.value)
    ensures var m := ToMember(f); StringKind(m.key.kind) && Proper(m.value) && AllGenuine(FlatMember(m))
    decreases f, 0
  {
    var m := ToMember(f);
    ValueIsGood(f.value);
    StringLexemeGenuine(f.name);
    MarkGenuine(Colon);
    GenuineAppend([m.key, Mark(Colon)], Flat(m.value));
  }

  lemma {:induction false} FieldsAreGood(fields: seq<Field>, comma: bool)
    requires StorableFields(fields)
    ensures ProperMembers(ToMembers(fields)) && AllGenuine(FlatMembers(ToMembers(fields), comma))
    decreases fields, 0
  {
    if fields == [] {
      MarkGenuine(ObjEnd);
    } else {
      var m, more := ToMember(fields[0]), ToMembers(fields[1..]);
      FieldIsGood(fields[0]);
      FieldsAreGood(fields[1..], true);
      ProperMembersCons(m, more);
      FlatMembersCons(m, more, comma);
      GenuineJoin(comma, FlatMember(m), FlatMembers(more, true));
    }
  }

  lemma ProperMembersCons(m: Member, more: seq<Member>)
    requires StringKind(m.key.kind) && Proper(m.value) && ProperMembers(more)
    ensures ProperMembers([m] + more)
  {
  }

  /** The text of some data, without white space */
  function Text(j: Json): string
    requires Storable(j)
  {
    Concat(Flat(ToValue(j)))
  }

  /** The text of some data spells it wherever it stands, unless a number goes on after it. */
  lemma {:induction false} TextSpells(text: string, pos: nat, j: Json)
    requires Storable(j) && OccursAt(text, pos, Text(j)) && !NumberChar(At(text, pos + |Text(j)|))
    ensures Spells(text, pos, ToValue(j), pos + |Text(j)|)
  {
    ValueIsGood(j);
    FlatApart(ToValue(j));
    ConcatReads(text, pos, Flat(ToValue(j)));
  }

  // ---- Read through the interface ----

  /** `s_json_get_type`, `s_json_get_string`, `s_json_get_int`, `s_json_get_bool`, `s_json_is_null` and the
      iterators give the data. */
  ghost predicate Reads(text: string, pos: nat, j: Json)
    requires pos <= |text|
    decreases j
  {
    var k := NextToken(text, pos).kind;
    match j
    case JNull => k == Null
    case JBool(b) => k == if b then True else False
    case JInt(n) => k == Number && forall fallback: int :: IntAt(text, pos, fallback) == n
    case JString(s) => StringAt(text, pos) == Some(s)
    case JArray(items) =>
      var at := Elements(text, pos);
      k == ArrayStart && |at| == |items|
      && forall i | 0 <= i < |items| :: at[i] <= |text| && Reads(text, at[i], items[i])
    case JObject(fields) =>
      var at := Members(text, pos);
      k == ObjStart && |at| == |fields|
      && forall i | 0 <= i < |fields| ::
           && at[i].0 <= |text| && StringAt(text, at[i].0) == Some(fields[i].name)
           && at[i].1 <= |text| && Reads(text, at[i].1, fields[i].value)
  }

  lemma KeyReadsBack(name: string)
    requires NulFree(name)
    ensures LexemeString(StringLexeme(name)) == name
  {
    DecodeOfEscape(name);
    assert Inner(Literal(name)) == Escape(name);
  }

  /** A text that spells some data is read as that data, at every depth. */
  lemma {:induction false} ReadsBack(text: string, pos: nat, j: Json, end: nat)
    requires pos <= |text| && Storable(j) && Spells(text, pos, ToValue(j), end)
    ensures Reads(text, pos, j)
    decreases j
  {
    match j
    case JNull => AfterOne(text, pos, WordLexeme(Null));
    case JBool(b) => AfterOne(text, pos, WordLexeme(if b then True else False));
    case JInt(n) =>
      AfterOne(text, pos, IntLexeme(n));
      forall fallback: int ensures IntAt(text, pos, fallback) == n {
        IntReadsBack(text, pos, n, fallback);
      }
    case JString(s) => StringReadsBack(text, pos, s);
    case JArray(items) =>
      AfterMark(text, pos, ArrayStart, FlatItems(ToValues(items), false));
      ElementsExactly(text, pos, ToValues(items), end);
      var at := Elements(text, pos);
      forall i | 0 <= i < |items| ensures at[i] <= |text| && Reads(text, at[i], items[i]) {
        ToValuesAt(items, i);
        assert SpelledAt(text, at[i], ToValue(items[i]));
        var e: nat :| Spells(text, at[i], ToValue(items[i]), e);
        ReadsBack(text, at[i], items[i], e);
      }
    case JObject(fields) =>
      AfterMark(text, pos, ObjStart, FlatMembers(ToMembers(fields), false));
      MembersExactly(text, pos, ToMembers(fields), end);
      var at := Members(text, pos);
      forall i | 0 <= i < |fields|
        ensures at[i].0 <= |text| && StringAt(text, at[i].0) == Some(fields[i].name)
        ensures at[i].1 <= |text| && Reads(text, at[i].1, fields[i].value)
      {
        var f := fields[i];
        ToMembersAt(fields, i);
        KeyReadsBack(f.name);
        assert MemberSpelledAt(text, at[i], ToMember(f));
        FieldReadsBack(text, at[i].1, f);
      }
  }

  lemma {:induction false} FieldReadsBack(text: string, at: nat, f: Field)
    requires NulFree(f.name) && Storable(f.value) && SpelledAt(text, at, ToValue(f.value))
    ensures at <= |text| && Reads(text, at, f.value)
    decreases f, 0
  {
    var e: nat :| Spells(text, at, ToValue(f.value), e);
    ReadsBack(text, at, f.value, e);
  }
}
