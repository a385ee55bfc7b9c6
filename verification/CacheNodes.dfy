/** Nodes and share keys in the session cache (oldmega.c): how they are written as JSON and read back. */
module CacheNodes {
  import opened Wrappers
  import Bytes
  import Base64
  import opened JsonGrammar
  import opened JsonStrings
  import opened JsonNumbers
  import opened JsonAccess
  import opened JsonData
  import opened JsonGen
  import opened JsonFields

  // ---- Optional strings and bytes ----

  function OptString(s: Option<string>): Plain
  {
    PString(s)
  }

  function OptBytes(d: Option<Bytes.bytes>): Plain
  {
    PString(if d.Some? then Some(Base64.Encode(d.value)) else None)
  }

  /** The string a JSON value holds */
  function AsString(j: Json): Option<string>
  {
    if j.JString? then Some(j.s) else None
  }

  function AsBytes(j: Json): Option<Bytes.bytes>
  {
    if j.JString? then Some(Base64.Decode(j.s)) else None
  }

  lemma OptStringBack(s: Option<string>)
    requires s.Some? ==> NulFree(s.value)
    ensures AsString(PlainJson(OptString(s))) == s
  {
    if s.Some? {
      CStringOfNulFree(s.value);
    }
  }

  lemma {:induction false} Base64Text(d: Bytes.bytes)
    ensures CText(Base64.Encode(d)) && NulFree(Base64.Encode(d))
  {
    Base64.EncodeSignificant(d);
    var s := Base64.Encode(d);
    forall i | 0 <= i < |s| ensures ByteChar(s[i]) {
      assert Base64.Significant(s[i]);
      Base64Char(s[i]);
    }
    CTextNulFree(s);
  }

  lemma Base64Char(c: char)
    requires Base64.Significant(c)
    ensures ByteChar(c)
  {
  }

  lemma OptBytesBack(d: Option<Bytes.bytes>)
    ensures AsBytes(PlainJson(OptBytes(d))) == d
  {
    if d.Some? {
      Base64Text(d.value);
      CStringOfNulFree(Base64.Encode(d.value));
      Base64.DecodeOfEncode(d.value);
    }
  }

  // ---- Machine integers ----

  const TWO32: int := 0x1_0000_0000
  const TWO64: int := 0x1_0000_0000_0000_0000

  /** Storing a number in a signed type of given range */
  function Signed(n: int, range: int): int
    requires range > 0
  {
    var r := n % range;
    if r < range - r then r else r - range
  }

  lemma SizeBack(n: int)
    requires 0 <= n < TWO64
    ensures Signed(n, TWO64) % TWO64 == n
  {
  }

  lemma KindBack(n: int)
    requires -0x8000_0000 <= n < 0x8000_0000
    ensures Signed(n, TWO32) == n
  {
  }

  // ---- Nodes ----

  datatype CachedNode = CachedNode(name: Option<string>, handle: Option<string>, parentHandle: Option<string>,
                                   userHandle: Option<string>, suHandle: Option<string>, key: Option<Bytes.bytes>,
                                   kind: int, size: int, timestamp: int, link: Option<string>)

  const NEW_NODE := CachedNode(None, None, None, None, None, None, -1, 0, 0, None)

  /** Text fields are C strings and numbers fit their types. */
  predicate GoodNode(n: CachedNode)
  {
    && GoodText(n.name) && GoodText(n.handle) && GoodText(n.parentHandle) && GoodText(n.userHandle)
    && GoodText(n.suHandle) && GoodText(n.link)
    && -0x8000_0000 <= n.kind < 0x8000_0000 && 0 <= n.size < TWO64
  }

  predicate GoodText(s: Option<string>)
  {
    s.Some? ==> CText(s.value)
  }

  /** The members of a saved node */
  function NodeMembers(n: CachedNode): seq<(string, Plain)>
  {
    [("name", OptString(n.name)), ("handle", OptString(n.handle)), ("parent_handle", OptString(n.parentHandle)),
     ("user_handle", OptString(n.userHandle)), ("su_handle", OptString(n.suHandle)), ("key", OptBytes(n.key)),
     ("type", PInt(n.kind)), ("size", PInt(Signed(n.size, TWO64))), ("timestamp", PInt(n.timestamp)),
     ("link", OptString(n.link))]
  }

  function AsFields(ms: seq<(string, Plain)>): (fs: seq<Field>)
    ensures |fs| == |ms|
  {
    if ms == [] then [] else [Field(ms[0].0, PlainJson(ms[0].1))] + AsFields(ms[1..])
  }

  lemma {:induction false} AsFieldsAt(ms: seq<(string, Plain)>, i: nat)
    requires i < |ms|
    ensures AsFields(ms)[i] == Field(ms[i].0, PlainJson(ms[i].1))
  {
    if i > 0 {
      AsFieldsAt(ms[1..], i - 1);
    }
  }

  function NodeFields(n: CachedNode): seq<Field>
  {
    AsFields(NodeMembers(n))
  }

  function IntOr(j: Json, fallback: int): int
  {
    if j.JInt? then j.n else fallback
  }

  /** What one member does to a node being loaded */
  function SetMember(n: CachedNode, key: string, j: Json): CachedNode
  {
    if key == "name" then n.(name := AsString(j))
    else if key == "handle" then n.(handle := AsString(j))
    else if key == "parent_handle" then n.(parentHandle := AsString(j))
    else if key == "user_handle" then n.(userHandle := AsString(j))
    else if key == "su_handle" then n.(suHandle := AsString(j))
    else if key == "key" then n.(key := AsBytes(j))
    else if key == "type" then n.(kind := Signed(IntOr(j, -1), TWO32))
    else if key == "size" then n.(size := IntOr(j, 0) % TWO64)
    else if key == "timestamp" then n.(timestamp := IntOr(j, 0))
    else if key == "link" then n.(link := AsString(j))
    else n
  }

  function SetAll(n: CachedNode, fields: seq<Field>): CachedNode
    decreases fields
  {
    if fields == [] then n else SetAll(SetMember(n, fields[0].name, fields[0].value), fields[1..])
  }

  // A node after three, six and nine of its members have been set

  function Third(n: CachedNode): CachedNode
  {
    NEW_NODE.(name := n.name, handle := n.handle, parentHandle := n.parentHandle)
  }

  function Sixth(n: CachedNode): CachedNode
  {
    Third(n).(userHandle := n.userHandle, suHandle := n.suHandle, key := n.key)
  }

  function Ninth(n: CachedNode): CachedNode
  {
    Sixth(n).(kind := n.kind, size := n.size, timestamp := n.timestamp)
  }

  lemma ThirdBack(n: CachedNode)
    requires GoodNode(n)
    ensures SetAll(NEW_NODE, NodeFields(n)) == SetAll(Third(n), AsFields(NodeMembers(n)[3..]))
  {
    StringsBack(n);
    SetThree(NEW_NODE, NodeMembers(n));
  }

  lemma SixthBack(n: CachedNode)
    requires GoodNode(n)
    ensures SetAll(Third(n), AsFields(NodeMembers(n)[3..])) == SetAll(Sixth(n), AsFields(NodeMembers(n)[6..]))
  {
    StringsBack(n);
    OptBytesBack(n.key);
    SetThree(Third(n), NodeMembers(n)[3..]);
    assert NodeMembers(n)[3..][3..] == NodeMembers(n)[6..];
  }

  lemma NinthBack(n: CachedNode)
    requires GoodNode(n)
    ensures SetAll(Sixth(n), AsFields(NodeMembers(n)[6..])) == SetAll(Ninth(n), AsFields(NodeMembers(n)[9..]))
  {
    KindBack(n.kind);
    SizeBack(n.size);
    SetThree(Sixth(n), NodeMembers(n)[6..]);
    assert NodeMembers(n)[6..][3..] == NodeMembers(n)[9..];
  }

  /** Setting all members of a saved node gives the node. */
  lemma NodeBack(n: CachedNode)
    requires GoodNode(n)
    ensures SetAll(NEW_NODE, NodeFields(n)) == n
  {
    ThirdBack(n);
    SixthBack(n);
    NinthBack(n);
    StringsBack(n);
    SetOne(Ninth(n), NodeMembers(n)[9..]);
    assert NodeMembers(n)[9..][1..] == [];
  }

  lemma StringsBack(n: CachedNode)
    requires GoodNode(n)
    ensures AsString(PlainJson(OptString(n.name))) == n.name && AsString(PlainJson(OptString(n.handle))) == n.handle
    ensures AsString(PlainJson(OptString(n.parentHandle))) == n.parentHandle
    ensures AsString(PlainJson(OptString(n.userHandle))) == n.userHandle
    ensures AsString(PlainJson(OptString(n.suHandle))) == n.suHandle && AsString(PlainJson(OptString(n.link))) == n.link
  {
    OptStringBack(n.name);
    OptStringBack(n.handle);
    OptStringBack(n.parentHandle);
    OptStringBack(n.userHandle);
    OptStringBack(n.suHandle);
    OptStringBack(n.link);
  }

  lemma {:induction false} SetOne(n: CachedNode, ms: seq<(string, Plain)>)
    requires |ms| >= 1
    ensures SetAll(n, AsFields(ms)) == SetAll(SetMember(n, ms[0].0, PlainJson(ms[0].1)), AsFields(ms[1..]))
  {
    assert AsFields(ms)[1..] == AsFields(ms[1..]);
  }

  lemma {:induction false} SetThree(n: CachedNode, ms: seq<(string, Plain)>)
    requires |ms| >= 3
    ensures SetAll(n, AsFields(ms)) ==
      SetAll(SetMember(SetMember(SetMember(n, ms[0].0, PlainJson(ms[0].1)), ms[1].0, PlainJson(ms[1].1)),
                       ms[2].0, PlainJson(ms[2].1)),
             AsFields(ms[3..]))
  {
    var n1 := SetMember(n, ms[0].0, PlainJson(ms[0].1));
    var n2 := SetMember(n1, ms[1].0, PlainJson(ms[1].1));
    SetOne(n, ms);
    SetOne(n1, ms[1..]);
    SetOne(n2, ms[2..]);
    assert ms[1..][1..] == ms[2..] && ms[2..][1..] == ms[3..];
  }

  // ---- Loading a node ----

  function BytesAt(text: string, pos: nat): Option<Bytes.bytes>
    requires pos <= |text|
  {
    var s := CStringAt(text, pos);
    if s.Some? then Some(Base64.Decode(s.value)) else None
  }

  /** `s_json_get_bytes` */
  method GetBytes(text: string, pos: nat) returns (r: Option<Bytes.bytes>)
    requires pos <= |text|
    ensures r == BytesAt(text, pos)
  {
    var data := GetCString(text, pos);
    r := if data.Some? then Some(Base64.Decode(data.value)) else None;
  }

  function NodeStep(text: string, n: CachedNode, k: nat, v: nat): CachedNode
    requires k <= |text| && v <= |text|
  {
    if KeyIs(text, k, "name") then n.(name := CStringAt(text, v))
    else if KeyIs(text, k, "handle") then n.(handle := CStringAt(text, v))
    else if KeyIs(text, k, "parent_handle") then n.(parentHandle := CStringAt(text, v))
    else if KeyIs(text, k, "user_handle") then n.(userHandle := CStringAt(text, v))
    else if KeyIs(text, k, "su_handle") then n.(suHandle := CStringAt(text, v))
    else if KeyIs(text, k, "key") then n.(key := BytesAt(text, v))
    else if KeyIs(text, k, "type") then n.(kind := Signed(IntAt(text, v, -1), TWO32))
    else if KeyIs(text, k, "size") then n.(size := IntAt(text, v, 0) % TWO64)
    else if KeyIs(text, k, "timestamp") then n.(timestamp := IntAt(text, v, 0))
    else if KeyIs(text, k, "link") then n.(link := CStringAt(text, v))
    else n
  }

  /** The chain of comparisons in the member loop of `mega_session_load` */
  method LoadMember(text: string, n0: CachedNode, k: nat, v: nat) returns (n: CachedNode)
    requires k <= |text| && v <= |text|
    ensures n == NodeStep(text, n0, k, v)
  {
    n := n0;
    var same := StringMatch(text, k, "name");
    if same {
      var s := GetCString(text, v);
      return n.(name := s);
    }
    same := StringMatch(text, k, "handle");
    if same {
      var s := GetCString(text, v);
      return n.(handle := s);
    }
    same := StringMatch(text, k, "parent_handle");
    if same {
      var s := GetCString(text, v);
      return n.(parentHandle := s);
    }
    same := StringMatch(text, k, "user_handle");
    if same {
      var s := GetCString(text, v);
      return n.(userHandle := s);
    }
    same := StringMatch(text, k, "su_handle");
    if same {
      var s := GetCString(text, v);
      return n.(suHandle := s);
    }
    n := LoadRest(text, n, k, v);
  }

  method LoadRest(text: string, n0: CachedNode, k: nat, v: nat) returns (n: CachedNode)
    requires k <= |text| && v <= |text|
    requires !KeyIs(text, k, "name") && !KeyIs(text, k, "handle") && !KeyIs(text, k, "parent_handle")
    requires !KeyIs(text, k, "user_handle") && !KeyIs(text, k, "su_handle")
    ensures n == NodeStep(text, n0, k, v)
  {
    n := n0;
    var same := StringMatch(text, k, "key");
    if same {
      var d := GetBytes(text, v);
      return n.(key := d);
    }
    same := StringMatch(text, k, "type");
    if same {
      var i := GetInt(text, v, -1);
      return n.(kind := Signed(i, TWO32));
    }
    same := StringMatch(text, k, "size");
    if same {
      var i := GetInt(text, v, 0);
      return n.(size := i % TWO64);
    }
    same := StringMatch(text, k, "timestamp");
    if same {
      var i := GetInt(text, v, 0);
      return n.(timestamp := i);
    }
    same := StringMatch(text, k, "link");
    if same {
      var s := GetCString(text, v);
      return n.(link := s);
    }
  }

  function NodeFrom(text: string, m: Option<(nat, nat)>, n: CachedNode): CachedNode
    requires m.Some? ==> m.value.0 < m.value.1 <= |text|
    decreases if m.Some? then |text| + 1 - m.value.1 else 0
  {
    if m.None? then n else NodeFrom(text, MemberNext(text, m.value.1), NodeStep(text, n, m.value.0, m.value.1))
  }

  function NodeAt(text: string, pos: nat): CachedNode
    requires pos <= |text|
  {
    NodeFrom(text, MemberFirst(text, pos), NEW_NODE)
  }

  /** One round of the node loop of `mega_session_load` */
  method LoadNode(text: string, pos: nat) returns (n: CachedNode)
    requires pos <= |text|
    ensures n == NodeAt(text, pos)
    ensures Members(text, pos) == [] ==> n == CachedNode(None, None, None, None, None, None, -1, 0, 0, None)
  {
    n := NEW_NODE;
    var m: Option<(nat, nat)> := GetMemberFirst(text, pos);
    while m.Some?
      invariant m.Some? ==> m.value.0 < m.value.1 <= |text|
      invariant NodeFrom(text, m, n) == NodeAt(text, pos)
      decreases if m.Some? then |text| + 1 - m.value.1 else 0
    {
      n := LoadMember(text, n, m.value.0, m.value.1);
      m := GetMemberNext(text, m.value.1);
    }
  }

  // ---- Loading what was written ----

  lemma KeyIsName(text: string, k: nat, key: string, name: string)
    requires k <= |text| && StringAt(text, k) == Some(key) && NulFree(key) && NulFree(name)
    ensures KeyIs(text, k, name) <==> key == name
  {
    CStringOfNulFree(key);
    CStringOfNulFree(name);
  }

  lemma NameKeys(text: string, k: nat, key: string)
    requires k <= |text| && StringAt(text, k) == Some(key) && NulFree(key)
    ensures KeyIs(text, k, "name") <==> key == "name"
    ensures KeyIs(text, k, "handle") <==> key == "handle"
  {
    assert KeyIs(text, k, "name") <==> key == "name" by {
      KeyIsName(text, k, key, "name");
    }
    assert KeyIs(text, k, "handle") <==> key == "handle" by {
      KeyIsName(text, k, key, "handle");
    }
  }

  lemma ParentHandleKey(text: string, k: nat, key: string)
    requires k <= |text| && StringAt(text, k) == Some(key) && NulFree(key)
    ensures KeyIs(text, k, "parent_handle") <==> key == "parent_handle"
  {
    KeyIsName(text, k, key, "parent_handle");
  }

  lemma UserHandleKey(text: string, k: nat, key: string)
    requires k <= |text| && StringAt(text, k) == Some(key) && NulFree(key)
    ensures KeyIs(text, k, "user_handle") <==> key == "user_handle"
  {
    KeyIsName(text, k, key, "user_handle");
  }

  lemma SuHandleKey(text: string, k: nat, key: string)
    requires k <= |text| && StringAt(text, k) == Some(key) && NulFree(key)
    ensures KeyIs(text, k, "su_handle") <==> key == "su_handle"
  {
    KeyIsName(text, k, key, "su_handle");
  }

  lemma ShortKeys(text: string, k: nat, key: string)
    requires k <= |text| && StringAt(text, k) == Some(key) && NulFree(key)
    ensures KeyIs(text, k, "key") <==> key == "key"
    ensures KeyIs(text, k, "type") <==> key == "type"
    ensures KeyIs(text, k, "size") <==> key == "size"
  {
    assert KeyIs(text, k, "key") <==> key == "key" by {
      KeyIsName(text, k, key, "key");
    }
    assert KeyIs(text, k, "type") <==> key == "type" by {
      KeyIsName(text, k, key, "type");
    }
    assert KeyIs(text, k, "size") <==> key == "size" by {
      KeyIsName(text, k, key, "size");
    }
  }

  lemma TimestampKey(text: string, k: nat, key: string)
    requires k <= |text| && StringAt(text, k) == Some(key) && NulFree(key)
    ensures KeyIs(text, k, "timestamp") <==> key == "timestamp"
  {
    KeyIsName(text, k, key, "timestamp");
  }

  lemma LinkKey(text: string, k: nat, key: string)
    requires k <= |text| && StringAt(text, k) == Some(key) && NulFree(key)
    ensures KeyIs(text, k, "link") <==> key == "link"
  {
    KeyIsName(text, k, key, "link");
  }

  /** What the getters give at a value */
  lemma {:induction false} SpelledValue(text: string, v: nat, j: Json)
    requires Storable(j) && SpelledAt(text, v, ToValue(j))
    ensures v <= |text| && CStringAt(text, v) == AsString(j) && BytesAt(text, v) == AsBytes(j)
    ensures forall fallback: int :: IntAt(text, v, fallback) == IntOr(j, fallback)
  {
    SpelledReads(text, v, j);
    SpelledString(text, v, j);
  }

  lemma {:induction false} StepIsSet(text: string, n: CachedNode, k: nat, v: nat, key: string, j: Json)
    requires k <= |text| && StringAt(text, k) == Some(key) && NulFree(key)
    requires Storable(j) && SpelledAt(text, v, ToValue(j))
    ensures v <= |text| && NodeStep(text, n, k, v) == SetMember(n, key, j)
  {
    NameKeys(text, k, key);
    ParentHandleKey(text, k, key);
    UserHandleKey(text, k, key);
    SuHandleKey(text, k, key);
    ShortKeys(text, k, key);
    TimestampKey(text, k, key);
    LinkKey(text, k, key);
    SpelledValue(text, v, j);
  }

  /** Loading the members of an object sets its fields one after the other. */
  lemma {:induction false} FromIsSetAll(text: string, m: Option<(nat, nat)>, n: CachedNode, fields: seq<Field>)
    requires (m.Some? ==> m.value.0 < m.value.1 <= |text|) && StorableFields(fields)
    requires MembersListed(text, MembersFrom(text, m), ToMembers(fields))
    ensures NodeFrom(text, m, n) == SetAll(n, fields)
    decreases fields
  {
    var at := MembersFrom(text, m);
    if fields != [] {
      var f := fields[0];
      var next := MemberNext(text, m.value.1);
      assert MemberSpelledAt(text, at[0], ToMember(f));
      KeyReadsBack(f.name);
      StepIsSet(text, n, m.value.0, m.value.1, f.name, f.value);
      ListedTail(text, at, ToMembers(fields));
      assert at[1..] == MembersFrom(text, next) && ToMembers(fields)[1..] == ToMembers(fields[1..]);
      FromIsSetAll(text, next, NodeStep(text, n, m.value.0, m.value.1), fields[1..]);
    }
  }

  lemma ListedTail(text: string, at: seq<(nat, nat)>, members: seq<Member>)
    requires MembersListed(text, at, members) && at != []
    ensures MembersListed(text, at[1..], members[1..])
  {
    forall i | 0 <= i < |at[1..]| ensures MemberSpelledAt(text, at[1..][i], members[1..][i]) {
      assert MemberSpelledAt(text, at[i + 1], members[i + 1]);
    }
  }

  function NodeJson(n: CachedNode): Json
  {
    JObject(NodeFields(n))
  }

  lemma {:induction false} AsFieldsStorable(ms: seq<(string, Plain)>)
    requires forall i | 0 <= i < |ms| :: NulFree(ms[i].0)
    ensures StorableFields(AsFields(ms))
  {
    if ms != [] {
      AsFieldsStorable(ms[1..]);
    }
  }

  lemma NodeJsonStorable(n: CachedNode)
    ensures Storable(NodeJson(n))
  {
    AsFieldsStorable(NodeMembers(n));
  }

  /** A node that is written and loaded again has all its saved members back. */
  lemma NodeRoundTrip(text: string, pos: nat, n: CachedNode)
    requires GoodNode(n) && Storable(NodeJson(n)) && SpelledAt(text, pos, ToValue(NodeJson(n)))
    ensures pos <= |text| && NodeAt(text, pos) == n
  {
    var e: nat :| Spells(text, pos, ToValue(NodeJson(n)), e);
    MembersExactly(text, pos, ToMembers(NodeFields(n)), e);
    FromIsSetAll(text, MemberFirst(text, pos), NEW_NODE, NodeFields(n));
    NodeBack(n);
  }
}
