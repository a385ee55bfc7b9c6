/** The JSON generator of sjson.c: it appends text and takes back the comma before a closing bracket. */
module JsonGen {
  import opened Wrappers
  import opened JsonLexer
  import opened JsonTokens
  import opened JsonGrammar
  import opened JsonStrings
  import opened JsonNumbers
  import opened JsonData

  /** A value without structure, as the caller gives it; a missing string stands for null. */
  datatype Plain = PNull | PBool(b: bool) | PInt(n: int) | PString(s: Option<string>)

  function PlainJson(v: Plain): (j: Json)
    ensures Storable(j)
  {
    match v
    case PNull => JNull
    case PBool(b) => JBool(b)
    case PInt(n) => JInt(n)
    case PString(None) => JNull
    case PString(Some(s)) => JString(CString(s))
  }

  function PlainText(v: Plain): string
  {
    match v
    case PNull => "null"
    case PBool(b) => if b then "true" else "false"
    case PInt(n) => IntText(n)
    case PString(None) => "null"
    case PString(Some(s)) => Literal(CString(s))
  }

  lemma PlainTextIsText(v: Plain)
    ensures PlainText(v) == Text(PlainJson(v))
  {
    var xs := Flat(ToValue(PlainJson(v)));
    assert xs[1..] == [];
    assert Concat(xs) == xs[0].text + Concat(xs[1..]);
  }

  /** Taking back a comma at the end */
  function Strip(s: string): string
  {
    if s != "" && s[|s| - 1] == ',' then s[..|s| - 1] else s
  }

  datatype Call = StartObject | EndObject | StartArray | EndArray | Value(v: Plain)
                | MemberValue(name: string, v: Plain) | MemberArray(name: string) | MemberObject(name: string)

  function NameText(name: string): string
  {
    Literal(CString(name)) + ":"
  }

  /** What a call makes of the text so far */
  function Effect(c: Call, s: string): string
  {
    match c
    case StartObject => s + "{"
    case EndObject => Strip(s) + ("}" + ",")
    case StartArray => s + "["
    case EndArray => Strip(s) + ("]" + ",")
    case Value(v) => s + (PlainText(v) + ",")
    case MemberValue(name, v) => s + (NameText(name) + PlainText(v) + ",")
    case MemberArray(name) => s + (NameText(name) + "[")
    case MemberObject(name) => s + (NameText(name) + "{")
  }

  lemma MemberEffect(s: string, name: string, v: Plain)
    ensures (s + NameText(name)) + (PlainText(v) + ",") == Effect(MemberValue(name, v), s)
  {
    Assoc(s, NameText(name), PlainText(v) + ",");
    Assoc(NameText(name), PlainText(v), ",");
  }

  class SJsonGen {
    var str: string

    /** `s_json_gen_new` */
    constructor ()
      ensures str == ""
    {
      str := "";
    }

    /** `strip_comma` */
    method StripComma()
      modifies this
      ensures str == Strip(old(str))
    {
      if |str| > 0 {
        if str[|str| - 1] == ',' {
          str := str[..|str| - 1];
        }
      }
    }

    /** `s_json_gen_start_object` */
    method GenStartObject()
      modifies this
      ensures str == Effect(StartObject, old(str))
    {
      str := str + "{";
    }

    /** `s_json_gen_end_object` */
    method GenEndObject()
      modifies this
      ensures str == Effect(EndObject, old(str))
    {
      StripComma();
      str := str + "},";
    }

    /** `s_json_gen_start_array` */
    method GenStartArray()
      modifies this
      ensures str == Effect(StartArray, old(str))
    {
      str := str + "[";
    }

    /** `s_json_gen_end_array` */
    method GenEndArray()
      modifies this
      ensures str == Effect(EndArray, old(str))
    {
      StripComma();
      str := str + "],";
    }

    /** `s_json_gen_string`, `s_json_gen_int`, `s_json_gen_bool` and `s_json_gen_null` */
    method GenValue(v: Plain)
      modifies this
      ensures str == Effect(Value(v), old(str))
    {
      match v
      case PNull => str := str + "null,";
      case PBool(b) => str := str + if b then "true," else "false,";
      case PInt(n) => str := str + IntText(n) + ",";
      case PString(None) => str := str + "null,";
      case PString(Some(s)) =>
        var escaped := EscapeString(s);
        str := str + escaped;
        str := str + ",";
    }

    /** What the member calls begin with: the name as a string, its comma taken back, and a colon */
    method GenName(name: string)
      modifies this
      ensures str == old(str) + NameText(name)
    {
      GenValue(PString(Some(name)));
      assert Strip(str) == old(str) + Literal(CString(name));
      StripComma();
      str := str + ":";
    }

    /** `s_json_gen_member_string`, `_int`, `_bool` and `_null` */
    method GenMemberValue(name: string, v: Plain)
      modifies this
      ensures str == Effect(MemberValue(name, v), old(str))
    {
      GenName(name);
      GenValue(v);
      MemberEffect(old(str), name, v);
    }

    /** `s_json_gen_member_array` */
    method GenMemberArray(name: string)
      modifies this
      ensures str == Effect(MemberArray(name), old(str))
    {
      GenName(name);
      GenStartArray();
    }

    /** `s_json_gen_member_object` */
    method GenMemberObject(name: string)
      modifies this
      ensures str == Effect(MemberObject(name), old(str))
    {
      GenName(name);
      GenStartObject();
    }

    /** One call */
    method Make(c: Call)
      modifies this
      ensures str == Effect(c, old(str))
    {
      match c
      case StartObject => GenStartObject();
      case EndObject => GenEndObject();
      case StartArray => GenStartArray();
      case EndArray => GenEndArray();
      case Value(v) => GenValue(v);
      case MemberValue(name, v) => GenMemberValue(name, v);
      case MemberArray(name) => GenMemberArray(name);
      case MemberObject(name) => GenMemberObject(name);
    }

    /** `s_json_gen_done` */
    method Done() returns (r: Option<string>)
      modifies this
      ensures r == if IsJson(Strip(old(str))) then Some(Strip(old(str))) else None
    {
      StripComma();
      var valid := IsValid(str);
      r := if valid then Some(str) else None;
    }
  }

  // ---- Well-nested calls ----

  /** What has been put into a container that is still open, and its name in the one around it */
  datatype Frame = ArrayFrame(name: string, items: seq<Json>) | ObjectFrame(name: string, fields: seq<Field>)

  predicate StorableFrame(f: Frame)
  {
    NulFree(f.name) &&
    match f
    case ArrayFrame(_, items) => StorableItems(items)
    case ObjectFrame(_, fields) => StorableFields(fields)
  }

  /** Open containers from the outside in; the first one stands for the text as a whole. */
  predicate WellFormed(frames: seq<Frame>)
  {
    frames != [] && frames[0].ArrayFrame? && forall i | 0 <= i < |frames| :: StorableFrame(frames[i])
  }

  function Top(frames: seq<Frame>): Frame
    requires frames != []
  {
    frames[|frames| - 1]
  }

  function Below(frames: seq<Frame>): seq<Frame>
    requires frames != []
  {
    frames[..|frames| - 1]
  }

  /** One more item or field in a container */
  function AddTo(f: Frame, name: string, j: Json): Frame
  {
    match f
    case ArrayFrame(n, items) => ArrayFrame(n, items + [j])
    case ObjectFrame(n, fields) => ObjectFrame(n, fields + [Field(name, j)])
  }

  function Add(frames: seq<Frame>, name: string, j: Json): seq<Frame>
    requires frames != []
  {
    Below(frames) + [AddTo(Top(frames), name, j)]
  }

  function FrameJson(f: Frame): Json
  {
    match f
    case ArrayFrame(_, items) => JArray(items)
    case ObjectFrame(_, fields) => JObject(fields)
  }

  /** What a well-nested call does to the open containers; None if the call does not fit. */
  function Nest(c: Call, frames: seq<Frame>): Option<seq<Frame>>
    requires frames != []
  {
    match c
    case StartObject => if Top(frames).ArrayFrame? then Some(frames + [ObjectFrame("", [])]) else None
    case StartArray => if Top(frames).ArrayFrame? then Some(frames + [ArrayFrame("", [])]) else None
    case Value(v) => if Top(frames).ArrayFrame? then Some(Add(frames, "", PlainJson(v))) else None
    case MemberValue(name, v) => if Top(frames).ObjectFrame? then Some(Add(frames, CString(name), PlainJson(v)))
      else None
    case MemberArray(name) => if Top(frames).ObjectFrame? then Some(frames + [ArrayFrame(CString(name), [])]) else None
    case MemberObject(name) => if Top(frames).ObjectFrame? then Some(frames + [ObjectFrame(CString(name), [])])
      else None
    case EndObject => if |frames| > 1 && Top(frames).ObjectFrame? then Some(Close(frames)) else None
    case EndArray => if |frames| > 1 && Top(frames).ArrayFrame? then Some(Close(frames)) else None
  }

  function Close(frames: seq<Frame>): seq<Frame>
    requires |frames| > 1
  {
    Add(Below(frames), Top(frames).name, FrameJson(Top(frames)))
  }

  lemma {:induction false} AddWellFormed(frames: seq<Frame>, name: string, j: Json)
    requires WellFormed(frames) && NulFree(name) && Storable(j)
    ensures WellFormed(Add(frames, name, j))
  {
  }

  lemma NestWellFormed(c: Call, frames: seq<Frame>)
    requires WellFormed(frames) && Nest(c, frames).Some?
    ensures WellFormed(Nest(c, frames).value)
  {
    match c
    case Value(v) => AddWellFormed(frames, "", PlainJson(v));
    case MemberValue(name, v) => AddWellFormed(frames, CString(name), PlainJson(v));
    case EndObject => AddWellFormed(Below(frames), Top(frames).name, FrameJson(Top(frames)));
    case EndArray => AddWellFormed(Below(frames), Top(frames).name, FrameJson(Top(frames)));
    case _ =>
  }

  // ---- Texts of open containers ----

  /** Each unit with a comma after it */
  function Terminated(us: seq<string>): string
  {
    if us == [] then "" else (Terminated(us[..|us| - 1]) + us[|us| - 1]) + ","
  }

  function FieldText(f: Field): string
    requires NulFree(f.name) && Storable(f.value)
  {
    Literal(f.name) + ":" + Text(f.value)
  }

  function ItemTexts(items: seq<Json>): (us: seq<string>)
    requires StorableItems(items)
    ensures |us| == |items|
  {
    seq(|items|, i requires 0 <= i < |items| => Text(items[i]))
  }

  function FieldTexts(fields: seq<Field>): (us: seq<string>)
    requires StorableFields(fields)
    ensures |us| == |fields|
  {
    seq(|fields|, i requires 0 <= i < |fields| => FieldText(fields[i]))
  }

  /** The texts of what is in a container */
  function Units(f: Frame): seq<string>
    requires StorableFrame(f)
  {
    match f
    case ArrayFrame(_, items) => ItemTexts(items)
    case ObjectFrame(_, fields) => FieldTexts(fields)
  }

  function Content(f: Frame): string
    requires StorableFrame(f)
  {
    Terminated(Units(f))
  }

  function OpeningText(f: Frame): string
  {
    if f.ObjectFrame? then "{" else "["
  }

  function OpenText(outer: Frame, f: Frame): string
    requires StorableFrame(f)
  {
    (if outer.ObjectFrame? then Literal(f.name) + ":" else "") + OpeningText(f)
  }

  /** All the text before what is in the innermost container */
  function Prefix(frames: seq<Frame>): string
    requires WellFormed(frames)
    decreases |frames|, 0
  {
    if |frames| == 1 then "" else Render(Below(frames)) + OpenText(Top(Below(frames)), Top(frames))
  }

  function Render(frames: seq<Frame>): string
    requires WellFormed(frames)
    decreases |frames|, 1
  {
    Prefix(frames) + Content(Top(frames))
  }

  /** The text of one item or field of a container */
  function UnitText(f: Frame, name: string, j: Json): string
    requires NulFree(name) && Storable(j)
  {
    if f.ObjectFrame? then FieldText(Field(name, j)) else Text(j)
  }

  lemma {:induction false} ContentAdd(f: Frame, name: string, j: Json)
    requires StorableFrame(f) && NulFree(name) && Storable(j)
    ensures StorableFrame(AddTo(f, name, j))
    ensures Content(AddTo(f, name, j)) == Content(f) + (UnitText(f, name, j) + ",")
  {
    var us, u := Units(f), UnitText(f, name, j);
    assert Units(AddTo(f, name, j)) == us + [u];
    assert (us + [u])[..|us|] == us;
    Assoc(Terminated(us), u, ",");
  }

  lemma {:induction false} PrefixAdd(frames: seq<Frame>, after: seq<Frame>)
    requires WellFormed(frames) && WellFormed(after) && Below(after) == Below(frames)
    requires Top(after).name == Top(frames).name && Top(after).ArrayFrame? == Top(frames).ArrayFrame?
    ensures Prefix(after) == Prefix(frames)
  {
    assert |after| == |frames|;
  }

  lemma {:induction false} RenderAdd(frames: seq<Frame>, name: string, j: Json)
    requires WellFormed(frames) && NulFree(name) && Storable(j)
    ensures WellFormed(Add(frames, name, j))
    ensures Render(Add(frames, name, j)) == Render(frames) + (UnitText(Top(frames), name, j) + ",")
  {
    AddWellFormed(frames, name, j);
    var after := Add(frames, name, j);
    ContentAdd(Top(frames), name, j);
    assert Below(after) == Below(frames);
    PrefixAdd(frames, after);
    Assoc(Prefix(frames), Content(Top(frames)), UnitText(Top(frames), name, j) + ",");
  }

  lemma {:induction false} RenderPush(frames: seq<Frame>, f: Frame)
    requires WellFormed(frames) && StorableFrame(f) && Content(f) == ""
    ensures WellFormed(frames + [f]) && Render(frames + [f]) == Render(frames) + OpenText(Top(frames), f)
  {
    assert Below(frames + [f]) == frames;
  }

  // ---- Closing a container ----

  lemma ConcatOne(x: Lexeme)
    ensures Concat([x]) == x.text
  {
    assert [x][1..] == [];
  }

  function CommaText(comma: bool): string
  {
    if comma then "," else ""
  }

  lemma ConcatSeparator(comma: bool)
    ensures Concat(Separator(comma)) == CommaText(comma)
  {
    ConcatOne(Mark(Comma));
  }

  lemma {:induction false} ConcatItems(vs: seq<Value>, comma: bool)
    requires vs != []
    ensures Concat(FlatItems(vs, comma)) == CommaText(comma) + (Concat(Flat(vs[0])) + Concat(FlatItems(vs[1..], true)))
  {
    var rest := FlatItems(vs[1..], true);
    ConcatSeparator(comma);
    ConcatAppend(Separator(comma), Flat(vs[0]) + rest);
    ConcatAppend(Flat(vs[0]), rest);
  }

  lemma {:induction false} ConcatMember(m: Member)
    ensures Concat(FlatMember(m)) == m.key.text + ":" + Concat(Flat(m.value))
  {
    ConcatAppend([m.key, Mark(Colon)], Flat(m.value));
    assert [m.key, Mark(Colon)] == [m.key] + [Mark(Colon)];
    ConcatAppend([m.key], [Mark(Colon)]);
    ConcatOne(m.key);
    ConcatOne(Mark(Colon));
  }

  lemma {:induction false} ConcatMembers(ms: seq<Member>, comma: bool)
    requires ms != []
    ensures Concat(FlatMembers(ms, comma)) ==
      CommaText(comma) + (Concat(FlatMember(ms[0])) + Concat(FlatMembers(ms[1..], true)))
  {
    var rest := FlatMembers(ms[1..], true);
    ConcatSeparator(comma);
    ConcatAppend(Separator(comma), FlatMember(ms[0]) + rest);
    ConcatAppend(FlatMember(ms[0]), rest);
  }

  predicate EndsInComma(s: string)
  {
    s != "" && s[|s| - 1] == ','
  }

  function DropLast(s: string): string
    requires s != ""
  {
    s[..|s| - 1]
  }

  lemma DropComma(s: string)
    ensures EndsInComma(s + ",") && DropLast(s + ",") == s
  {
  }

  lemma MoveComma(done: string, unit: string, rest: string)
    requires EndsInComma(done)
    ensures (done + unit) + rest == DropLast(done) + ("," + (unit + rest))
  {
    assert done == DropLast(done) + ",";
  }

  /** Units with commas between them, and a closing text */
  function Joined(us: seq<string>, comma: bool, close: string): string
  {
    if us == [] then close else CommaText(comma) + (us[0] + Joined(us[1..], true, close))
  }

  /** Some units, the comma after the last one taken back, and the rest with a comma before it */
  lemma {:induction false} JoinedFrom(us: seq<string>, k: nat, close: string)
    requires 0 < k <= |us|
    ensures EndsInComma(Terminated(us[..k]))
    ensures DropLast(Terminated(us[..k])) + Joined(us[k..], true, close) == Joined(us, false, close)
    decreases k
  {
    var before, unit := Terminated(us[..k - 1]), us[k - 1];
    assert us[..k][..k - 1] == us[..k - 1];
    DropComma(before + unit);
    if k > 1 {
      JoinedFrom(us, k - 1, close);
      assert us[k - 1..][1..] == us[k..];
      MoveComma(before, unit, Joined(us[k..], true, close));
    }
  }

  /** Taking back the last comma and closing */
  lemma {:induction false} TerminatedClosed(us: seq<string>, close: string)
    ensures Strip(Terminated(us)) + close == Joined(us, false, close)
    ensures us != [] ==> EndsInComma(Terminated(us))
  {
    if us != [] {
      JoinedFrom(us, |us|, close);
      assert us[..|us|] == us && us[|us|..] == [];
    }
  }

  lemma {:induction false} ItemsJoined(items: seq<Json>, comma: bool)
    requires StorableItems(items)
    ensures Concat(FlatItems(ToValues(items), comma)) == Joined(ItemTexts(items), comma, "]")
    decreases items
  {
    if items == [] {
      ConcatOne(Mark(ArrayEnd));
    } else {
      assert ToValues(items)[1..] == ToValues(items[1..]);
      assert ItemTexts(items)[1..] == ItemTexts(items[1..]);
      ConcatItems(ToValues(items), comma);
      ItemsJoined(items[1..], true);
    }
  }

  lemma {:induction false} FieldTextConcat(f: Field)
    requires NulFree(f.name) && Storable(f.value)
    ensures Concat(FlatMember(ToMember(f))) == FieldText(f)
  {
    ConcatMember(ToMember(f));
  }

  lemma {:induction false} FieldsStep(fields: seq<Field>, comma: bool)
    requires StorableFields(fields) && fields != []
    ensures Concat(FlatMembers(ToMembers(fields), comma)) ==
      CommaText(comma) + (FieldText(fields[0]) + Concat(FlatMembers(ToMembers(fields[1..]), true)))
  {
    assert ToMembers(fields)[1..] == ToMembers(fields[1..]);
    ConcatMembers(ToMembers(fields), comma);
    FieldTextConcat(fields[0]);
  }

  lemma FieldTextsStep(fields: seq<Field>)
    requires StorableFields(fields) && fields != []
    ensures FieldTexts(fields)[0] == FieldText(fields[0]) && FieldTexts(fields)[1..] == FieldTexts(fields[1..])
  {
    hide FieldText;
  }

  lemma {:induction false} JoinedStep(us: seq<string>, comma: bool, close: string, u: string, rest: seq<string>)
    requires us != [] && us[0] == u && us[1..] == rest
    ensures Joined(us, comma, close) == CommaText(comma) + (u + Joined(rest, true, close))
  {
  }

  lemma {:induction false} FieldsJoined(fields: seq<Field>, comma: bool)
    requires StorableFields(fields)
    ensures Concat(FlatMembers(ToMembers(fields), comma)) == Joined(FieldTexts(fields), comma, "}")
    decreases fields
  {
    if fields == [] {
      ConcatOne(Mark(ObjEnd));
    } else {
      FieldsStep(fields, comma);
      FieldTextsStep(fields);
      FieldsJoined(fields[1..], true);
      JoinedStep(FieldTexts(fields), comma, "}", FieldText(fields[0]), FieldTexts(fields[1..]));
    }
  }

  lemma {:induction false} ConcatArray(vs: seq<Value>)
    ensures Concat(Flat(Array(vs))) == "[" + Concat(FlatItems(vs, false))
  {
    ConcatAppend([Mark(ArrayStart)], FlatItems(vs, false));
    ConcatOne(Mark(ArrayStart));
  }

  lemma {:induction false} ConcatObject(ms: seq<Member>)
    ensures Concat(Flat(Object(ms))) == "{" + Concat(FlatMembers(ms, false))
  {
    ConcatAppend([Mark(ObjStart)], FlatMembers(ms, false));
    ConcatOne(Mark(ObjStart));
  }

  function ClosingText(f: Frame): string
  {
    if f.ObjectFrame? then "}" else "]"
  }

  lemma FrameText(f: Frame)
    requires StorableFrame(f)
    ensures Storable(FrameJson(f))
    ensures Text(FrameJson(f)) == OpeningText(f) + (Strip(Content(f)) + ClosingText(f))
    ensures Content(f) != "" ==> EndsInComma(Content(f))
  {
    TerminatedClosed(Units(f), ClosingText(f));
    match f
    case ArrayFrame(_, items) =>
      ConcatArray(ToValues(items));
      ItemsJoined(items, false);
    case ObjectFrame(_, fields) =>
      ConcatObject(ToMembers(fields));
      FieldsJoined(fields, false);
  }

  /** The text of every kind of data */
  lemma TextForms(j: Json)
    requires Storable(j)
    ensures Text(j) == match j
      case JNull => "null"
      case JBool(b) => if b then "true" else "false"
      case JInt(n) => IntText(n)
      case JString(s) => Literal(s)
      case JArray(items) => "[" + Joined(ItemTexts(items), false, "]")
      case JObject(fields) => "{" + Joined(FieldTexts(fields), false, "}")
  {
    match j
    case JArray(items) =>
      ConcatArray(ToValues(items));
      ItemsJoined(items, false);
    case JObject(fields) =>
      ConcatObject(ToMembers(fields));
      FieldsJoined(fields, false);
    case _ => ConcatOne(ToValue(j).x);
  }

  lemma JoinedCons(u: string, us: seq<string>, comma: bool, close: string)
    ensures Joined([u] + us, comma, close) == CommaText(comma) + (u + Joined(us, true, close))
  {
    assert ([u] + us)[1..] == us;
  }

  /** Containers with nothing and one thing in them, and one more thing in front */
  lemma JoinedForms(a: string, b: string, us: seq<string>, close: string)
    ensures Joined([], false, close) == close && Joined([a], false, close) == a + close
    ensures Joined([a] + ([b] + us), false, close) == a + ("," + Joined([b] + us, false, close))
  {
    JoinedCons(a, [], false, close);
    assert [a] + [] == [a];
    JoinedCons(a, [b] + us, false, close);
    JoinedCons(b, us, true, close);
    JoinedCons(b, us, false, close);
  }

  /** The text of a closed container, with its name if it is in an object */
  lemma ClosedText(outer: Frame, f: Frame, text: string)
    requires StorableFrame(f) && Storable(FrameJson(f)) && Text(FrameJson(f)) == OpeningText(f) + text
    ensures UnitText(outer, f.name, FrameJson(f)) == OpenText(outer, f) + text
  {
    Assoc(Literal(f.name) + ":", OpeningText(f), text);
  }

  lemma StripAppend(s: string, content: string)
    requires content == "" ==> s != "" && s[|s| - 1] != ','
    ensures Strip(s + content) == s + Strip(content)
  {
    if content != "" {
      assert (s + content)[|s + content| - 1] == content[|content| - 1];
    } else {
      assert s + content == s;
    }
  }

  lemma OpenEnds(outer: Frame, f: Frame)
    requires StorableFrame(f)
    ensures var o := OpenText(outer, f); o != "" && o[|o| - 1] != ','
  {
  }

  /** A closing bracket takes back exactly the comma after the last item, if there is one. */
  lemma {:induction false} RenderClose(frames: seq<Frame>)
    requires WellFormed(frames) && |frames| > 1
    ensures WellFormed(Close(frames))
    ensures Strip(Render(frames)) + (ClosingText(Top(frames)) + ",") == Render(Close(frames))
  {
    var f, below := Top(frames), Below(frames);
    assert WellFormed(below);
    FrameText(f);
    ClosedText(Top(below), f, Strip(Content(f)) + ClosingText(f));
    RenderAdd(below, f.name, FrameJson(f));
    var r, o, c, e := Render(below), OpenText(Top(below), f), Content(f), ClosingText(f);
    OpenEnds(Top(below), f);
    StripAppend(r + o, c);
    Regroup(r, o, Strip(c), e);
  }

  lemma Regroup(r: string, o: string, c: string, e: string)
    ensures ((r + o) + c) + (e + ",") == r + ((o + (c + e)) + ",")
  {
  }

  lemma {:induction false} PushRenders(c: Call, frames: seq<Frame>, f: Frame)
    requires WellFormed(frames) && Nest(c, frames) == Some(frames + [f]) && StorableFrame(f) && Units(f) == []
    requires !c.Value? && !c.MemberValue? && !c.EndObject? && !c.EndArray?
    ensures Effect(c, Render(frames)) == Render(frames) + OpenText(Top(frames), f)
  {
    assert Top(frames + [f]) == f;
  }

  lemma {:induction false} ItemRenders(frames: seq<Frame>, v: Plain)
    requires WellFormed(frames) && Top(frames).ArrayFrame?
    ensures WellFormed(Add(frames, "", PlainJson(v)))
    ensures Render(Add(frames, "", PlainJson(v))) == Effect(Value(v), Render(frames))
  {
    PlainTextIsText(v);
    RenderAdd(frames, "", PlainJson(v));
  }

  lemma MemberUnit(f: Frame, name: string, n: string, v: Plain, j: Json)
    requires f.ObjectFrame? && n == CString(name) && Storable(j) && Text(j) == PlainText(v)
    ensures UnitText(f, n, j) == NameText(name) + PlainText(v)
  {
  }

  lemma {:induction false} FieldEffect(frames: seq<Frame>, name: string, n: string, v: Plain, j: Json)
    requires WellFormed(frames) && Top(frames).ObjectFrame?
    requires n == CString(name) && Storable(j) && Text(j) == PlainText(v)
    ensures WellFormed(Add(frames, n, j)) && Render(Add(frames, n, j)) == Effect(MemberValue(name, v), Render(frames))
  {
    RenderAdd(frames, n, j);
    MemberUnit(Top(frames), name, n, v, j);
  }

  lemma {:induction false} FieldRenders(frames: seq<Frame>, name: string, v: Plain)
    requires WellFormed(frames) && Top(frames).ObjectFrame?
    ensures WellFormed(Add(frames, CString(name), PlainJson(v)))
    ensures Render(Add(frames, CString(name), PlainJson(v))) == Effect(MemberValue(name, v), Render(frames))
  {
    PlainTextIsText(v);
    FieldEffect(frames, name, CString(name), v, PlainJson(v));
  }

  /** A well-nested call turns the text of the open containers before it into the text of those after
      it. */
  lemma {:induction false} CallRenders(c: Call, frames: seq<Frame>)
    requires WellFormed(frames) && Nest(c, frames).Some?
    ensures WellFormed(Nest(c, frames).value)
    ensures Effect(c, Render(frames)) == Render(Nest(c, frames).value)
  {
    NestWellFormed(c, frames);
    if c.Value? {
      ItemRenders(frames, c.v);
    } else if c.MemberValue? {
      FieldRenders(frames, c.name, c.v);
    } else if c.EndObject? || c.EndArray? {
      EndRenders(c, frames);
    } else {
      StartRenders(c, frames);
    }
  }

  lemma {:induction false} EndRenders(c: Call, frames: seq<Frame>)
    requires WellFormed(frames) && Nest(c, frames).Some? && (c.EndObject? || c.EndArray?)
    ensures WellFormed(Nest(c, frames).value) && Effect(c, Render(frames)) == Render(Nest(c, frames).value)
  {
    RenderClose(frames);
  }

  lemma {:induction false} StartRenders(c: Call, frames: seq<Frame>)
    requires WellFormed(frames) && Nest(c, frames).Some?
    requires !c.Value? && !c.MemberValue? && !c.EndObject? && !c.EndArray?
    ensures WellFormed(Nest(c, frames).value) && Effect(c, Render(frames)) == Render(Nest(c, frames).value)
  {
    NestWellFormed(c, frames);
    var f := Top(Nest(c, frames).value);
    PushRenders(c, frames, f);
    RenderPush(frames, f);
  }

  // ---- Runs of calls ----

  function EffectAll(calls: seq<Call>, s: string): string
  {
    if calls == [] then s else EffectAll(calls[1..], Effect(calls[0], s))
  }

  function NestAll(calls: seq<Call>, frames: seq<Frame>): (r: Option<seq<Frame>>)
    requires frames != []
    ensures r.Some? ==> r.value != []
    decreases calls
  {
    if calls == [] then Some(frames)
    else
      var next := Nest(calls[0], frames);
      if next.None? then None else NestAll(calls[1..], next.value)
  }

  lemma {:induction false} NestAppend(xs: seq<Call>, ys: seq<Call>, frames: seq<Frame>)
    requires frames != [] && NestAll(xs, frames).Some?
    ensures NestAll(xs + ys, frames) == NestAll(ys, NestAll(xs, frames).value)
    decreases xs
  {
    if xs == [] {
      assert xs + ys == ys;
    } else {
      assert (xs + ys)[1..] == xs[1..] + ys;
      NestAppend(xs[1..], ys, Nest(xs[0], frames).value);
    }
  }

  /** A well-nested run of calls leaves the text of the containers it has opened. */
  lemma {:induction false} RunRenders(calls: seq<Call>, frames: seq<Frame>)
    requires WellFormed(frames) && NestAll(calls, frames).Some?
    ensures WellFormed(NestAll(calls, frames).value)
    ensures EffectAll(calls, Render(frames)) == Render(NestAll(calls, frames).value)
    decreases calls
  {
    if calls != [] {
      CallRenders(calls[0], frames);
      RunRenders(calls[1..], Nest(calls[0], frames).value);
    }
  }

  const EMPTY: seq<Frame> := [ArrayFrame("", [])]

  lemma EmptyRenders()
    ensures WellFormed(EMPTY) && Render(EMPTY) == ""
  {
    assert ItemTexts([]) == [];
  }

  /** The generator has written what is in some open containers. */
  ghost predicate Holds(gen: SJsonGen, frames: seq<Frame>)
    reads gen
  {
    WellFormed(frames) && gen.str == Render(frames)
  }

  /** A well-nested call on a generator */
  method Call1(gen: SJsonGen, c: Call, ghost frames: seq<Frame>)
    requires Holds(gen, frames) && Nest(c, frames).Some?
    modifies gen
    ensures Holds(gen, Nest(c, frames).value)
  {
    CallRenders(c, frames);
    gen.Make(c);
  }

  /** The first call on a new generator: an object */
  method OpenRoot(gen: SJsonGen)
    requires gen.str == ""
    modifies gen
    ensures Holds(gen, EMPTY + [ObjectFrame("", [])])
  {
    EmptyRenders();
    Call1(gen, StartObject, EMPTY);
  }

  /** A member of the object that is open */
  method PutMember(gen: SJsonGen, name: string, v: Plain, ghost base: seq<Frame>, ghost outer: string,
      ghost fields: seq<Field>)
    requires base != [] && NulFree(name) && Holds(gen, base + [ObjectFrame(outer, fields)])
    modifies gen
    ensures Holds(gen, base + [ObjectFrame(outer, fields + [Field(name, PlainJson(v))])])
  {
    ghost var frames := base + [ObjectFrame(outer, fields)];
    CStringOfNulFree(name);
    AddToTop(base, ObjectFrame(outer, fields), name, PlainJson(v));
    Call1(gen, MemberValue(name, v), frames);
  }

  /** The end of the object or array that is open */
  method CloseFrame(gen: SJsonGen, isObject: bool, ghost base: seq<Frame>, ghost f: Frame)
    requires isObject == f.ObjectFrame? && base != [] && Holds(gen, base + [f])
    modifies gen
    ensures Holds(gen, Add(base, f.name, FrameJson(f)))
  {
    ghost var frames := base + [f];
    assert Below(frames) == base && Top(frames) == f;
    Call1(gen, if isObject then EndObject else EndArray, frames);
  }

  /** A run of calls on a new generator */
  method RunCalls(gen: SJsonGen, calls: seq<Call>)
    requires gen.str == ""
    modifies gen
    ensures gen.str == EffectAll(calls, "")
    ensures NestAll(calls, EMPTY).Some? ==>
      WellFormed(NestAll(calls, EMPTY).value) && gen.str == Render(NestAll(calls, EMPTY).value)
  {
    var i := 0;
    assert calls[0..] == calls;
    while i < |calls|
      invariant 0 <= i <= |calls|
      invariant EffectAll(calls[i..], gen.str) == EffectAll(calls, "")
    {
      assert calls[i..][1..] == calls[i + 1..];
      gen.Make(calls[i]);
      i := i + 1;
    }
    EmptyRenders();
    if NestAll(calls, EMPTY).Some? {
      RunRenders(calls, EMPTY);
    }
  }

  // ---- The calls for given data ----

  /** The calls that write some data, in an array or under a name in an object */
  function CallsFor(j: Json, named: bool, name: string): seq<Call>
  {
    match j
    case JArray(items) => [if named then MemberArray(name) else StartArray] + CallsForItems(items) + [EndArray]
    case JObject(fields) => [if named then MemberObject(name) else StartObject] + CallsForFields(fields) + [EndObject]
    case _ => [if named then MemberValue(name, AsPlain(j)) else Value(AsPlain(j))]
  }

  function AsPlain(j: Json): Plain
    requires !j.JArray? && !j.JObject?
  {
    match j
    case JNull => PNull
    case JBool(b) => PBool(b)
    case JInt(n) => PInt(n)
    case JString(s) => PString(Some(s))
  }

  function CallsForItems(items: seq<Json>): seq<Call>
  {
    if items == [] then [] else CallsFor(items[0], false, "") + CallsForItems(items[1..])
  }

  function CallsForFields(fields: seq<Field>): seq<Call>
  {
    if fields == [] then [] else CallsFor(fields[0].value, true, fields[0].name) + CallsForFields(fields[1..])
  }

  lemma {:induction false} AsPlainJson(j: Json)
    requires Storable(j) && !j.JArray? && !j.JObject?
    ensures PlainJson(AsPlain(j)) == j
  {
    if j.JString? {
      CStringOfNulFree(j.s);
    }
  }

  /** The calls for some data are well nested and add it to the container that is open. */
  lemma {:induction false} CallsAdd(j: Json, frames: seq<Frame>, name: string)
    requires WellFormed(frames) && Storable(j) && NulFree(name)
    requires Top(frames).ArrayFrame? ==> name == ""
    ensures NestAll(CallsFor(j, Top(frames).ObjectFrame?, name), frames) == Some(Add(frames, name, j))
    decreases j, 1
  {
    match j
    case JArray(items) => CallsAddArray(items, frames, name);
    case JObject(fields) => CallsAddObject(fields, frames, name);
    case _ => CallsAddPlain(j, frames, name);
  }

  function OpenCall(f: Frame, named: bool, name: string): Call
  {
    match f
    case ArrayFrame(_, _) => if named then MemberArray(name) else StartArray
    case ObjectFrame(_, _) => if named then MemberObject(name) else StartObject
  }

  lemma Opens(frames: seq<Frame>, name: string, f: Frame)
    requires frames != [] && NulFree(name) && (Top(frames).ArrayFrame? ==> name == "")
    requires f == ArrayFrame(name, []) || f == ObjectFrame(name, [])
    ensures Nest(OpenCall(f, Top(frames).ObjectFrame?, name), frames) == Some(frames + [f])
  {
    CStringOfNulFree(name);
  }

  lemma {:induction false} PushWellFormed(frames: seq<Frame>, f: Frame)
    requires WellFormed(frames) && StorableFrame(f)
    ensures WellFormed(frames + [f])
  {
  }

  lemma {:induction false} CallsAddArray(items: seq<Json>, frames: seq<Frame>, name: string)
    requires WellFormed(frames) && StorableItems(items) && NulFree(name)
    requires Top(frames).ArrayFrame? ==> name == ""
    ensures NestAll(CallsFor(JArray(items), Top(frames).ObjectFrame?, name), frames) ==
      Some(Add(frames, name, JArray(items)))
    decreases items, 1
  {
    var f := ArrayFrame(name, []);
    Opens(frames, name, f);
    PushWellFormed(frames, f);
    CallsAddItems(items, frames, name, []);
    assert [] + items == items;
    Wrapped(OpenCall(f, Top(frames).ObjectFrame?, name), CallsForItems(items), EndArray, frames, f,
        ArrayFrame(name, items));
  }

  lemma {:induction false} CallsAddObject(fields: seq<Field>, frames: seq<Frame>, name: string)
    requires WellFormed(frames) && StorableFields(fields) && NulFree(name)
    requires Top(frames).ArrayFrame? ==> name == ""
    ensures NestAll(CallsFor(JObject(fields), Top(frames).ObjectFrame?, name), frames) ==
      Some(Add(frames, name, JObject(fields)))
    decreases fields, 1
  {
    var f := ObjectFrame(name, []);
    Opens(frames, name, f);
    PushWellFormed(frames, f);
    CallsAddFields(fields, frames, name, []);
    assert [] + fields == fields;
    Wrapped(OpenCall(f, Top(frames).ObjectFrame?, name), CallsForFields(fields), EndObject, frames, f,
        ObjectFrame(name, fields));
  }

  lemma {:induction false} CallsAddPlain(j: Json, frames: seq<Frame>, name: string)
    requires WellFormed(frames) && Storable(j) && NulFree(name) && !j.JArray? && !j.JObject?
    requires Top(frames).ArrayFrame? ==> name == ""
    ensures NestAll(CallsFor(j, Top(frames).ObjectFrame?, name), frames) == Some(Add(frames, name, j))
  {
    AsPlainJson(j);
    CStringOfNulFree(name);
    NestOne(CallsFor(j, Top(frames).ObjectFrame?, name)[0], frames);
  }

  lemma {:induction false} NestOne(c: Call, frames: seq<Frame>)
    requires frames != []
    ensures NestAll([c], frames) == Nest(c, frames)
  {
    assert [c][1..] == [];
  }

  /** Opening, filling and closing a container */
  lemma {:induction false} Wrapped(open: Call, calls: seq<Call>, close: Call, frames: seq<Frame>, f: Frame, full: Frame)
    requires frames != [] && Nest(open, frames) == Some(frames + [f])
    requires NestAll(calls, frames + [f]) == Some(frames + [full])
    requires close == if full.ArrayFrame? then EndArray else EndObject
    ensures NestAll([open] + calls + [close], frames) == Some(Add(frames, full.name, FrameJson(full)))
  {
    var inner := frames + [full];
    assert Below(inner) == frames && Top(inner) == full;
    NestOne(close, inner);
    NestAppend(calls, [close], frames + [f]);
    assert ([open] + calls + [close])[1..] == calls + [close];
  }

  lemma AddToTop(frames: seq<Frame>, f: Frame, name: string, j: Json)
    ensures Add(frames + [f], name, j) == frames + [AddTo(f, name, j)]
  {
    assert Below(frames + [f]) == frames;
  }

  lemma {:induction false} CallsAddItems(items: seq<Json>, below: seq<Frame>, name: string, done: seq<Json>)
    requires WellFormed(below + [ArrayFrame(name, done)]) && StorableItems(items)
    ensures NestAll(CallsForItems(items), below + [ArrayFrame(name, done)]) ==
      Some(below + [ArrayFrame(name, done + items)])
    decreases items, 0
  {
    if items == [] {
      assert done + items == done;
    } else {
      var f, j, more := ArrayFrame(name, done), items[0], items[1..];
      CallsAdd(j, below + [f], "");
      AddWellFormed(below + [f], "", j);
      AddToTop(below, f, "", j);
      CallsAddItems(more, below, name, done + [j]);
      NestAppend(CallsFor(j, false, ""), CallsForItems(more), below + [f]);
      assert items == [j] + more;
      Assoc(done, [j], more);
    }
  }

  lemma {:induction false} CallsAddField(f: Field, frames: seq<Frame>)
    requires WellFormed(frames) && NulFree(f.name) && Storable(f.value) && Top(frames).ObjectFrame?
    ensures NestAll(CallsFor(f.value, true, f.name), frames) == Some(Add(frames, f.name, f.value))
    decreases f, 0
  {
    CallsAdd(f.value, frames, f.name);
  }

  lemma {:induction false} CallsAddFields(fields: seq<Field>, below: seq<Frame>, name: string, done: seq<Field>)
    requires WellFormed(below + [ObjectFrame(name, done)]) && StorableFields(fields)
    ensures NestAll(CallsForFields(fields), below + [ObjectFrame(name, done)]) ==
      Some(below + [ObjectFrame(name, done + fields)])
    decreases fields, 0
  {
    if fields == [] {
      assert done + fields == done;
    } else {
      var f, g, more := ObjectFrame(name, done), fields[0], fields[1..];
      CallsAddField(g, below + [f]);
      AddWellFormed(below + [f], g.name, g.value);
      AddToTop(below, f, g.name, g.value);
      CallsAddFields(more, below, name, done + [g]);
      NestAppend(CallsFor(g.value, true, g.name), CallsForFields(more), below + [f]);
      assert fields == [g] + more;
      Assoc(done, [g], more);
    }
  }

  // ---- Finished text ----

  lemma {:induction false} RenderOne(j: Json)
    requires Storable(j)
    ensures WellFormed([ArrayFrame("", [j])]) && Render([ArrayFrame("", [j])]) == Text(j) + ","
  {
    var us := ItemTexts([j]);
    assert us == [Text(j)];
    assert us[..0] == [] && Terminated([]) == "";
  }

  /** When exactly one value has been put, taking back the last comma leaves a valid text that spells the
      value and is read as it. */
  lemma {:induction false} FinishedText(j: Json)
    requires Storable(j)
    ensures WellFormed([ArrayFrame("", [j])]) && Strip(Render([ArrayFrame("", [j])])) == Text(j)
    ensures Spells(Text(j), 0, ToValue(j), |Text(j)|) && IsJson(Text(j)) && Reads(Text(j), 0, j)
  {
    RenderOne(j);
    DropComma(Text(j));
    WholeText(j, Text(j));
  }

  lemma {:induction false} WholeReads(j: Json, text: string)
    requires Storable(j) && Spells(text, 0, ToValue(j), |text|)
    ensures Reads(text, 0, j)
  {
    ReadsBack(text, 0, j, |text|);
  }

  lemma {:induction false} WholeTokens(xs: seq<Lexeme>, text: string)
    requires AllGenuine(xs) && Apart(xs) && text == Concat(xs)
    ensures After(text, 0, xs) == Some(|text|)
  {
    assert text[0..|text|] == text;
    ConcatReads(text, 0, xs);
  }

  lemma {:induction false} WholeSpells(j: Json, text: string)
    requires Storable(j) && text == Text(j)
    ensures Spells(text, 0, ToValue(j), |text|)
  {
    ValueIsGood(j);
    FlatApart(ToValue(j));
    WholeTokens(Flat(ToValue(j)), text);
  }

  lemma {:induction false} WholeText(j: Json, text: string)
    requires Storable(j) && text == Text(j)
    ensures Spells(text, 0, ToValue(j), |text|) && IsJson(text) && Reads(text, 0, j)
  {
    WholeSpells(j, text);
    WholeReads(j, text);
    WholeSpelled(text, ToValue(j));
  }

  lemma AddToEmpty(j: Json)
    ensures Add(EMPTY, "", j) == [ArrayFrame("", [j])]
  {
    assert Below(EMPTY) == [] && [] + [j] == [j];
  }

  /** Writing data with the matching calls gives a text that is read back as that data. */
  method Generate(j: Json) returns (r: Option<string>)
    requires Storable(j)
    ensures r == Some(Text(j)) && Reads(Text(j), 0, j)
  {
    var gen := new SJsonGen();
    CallsAdd(j, EMPTY, "");
    RunCalls(gen, CallsFor(j, false, ""));
    AddToEmpty(j);
    FinishedText(j);
    r := gen.Done();
  }

}
