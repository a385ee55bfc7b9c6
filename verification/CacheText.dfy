/** The text of a cache file (oldmega.c): which members it has, under which names and in which order. */
module CacheText {
  import opened Wrappers
  import Bytes
  import Base64
  import opened JsonStrings
  import opened JsonNumbers
  import opened JsonData
  import opened JsonGen
  import opened JsonFields
  import opened CacheNodes
  import opened CacheKeys
  import opened Cache

  /** A string or null */
  function StringText(s: Option<string>): string
  {
    if s.Some? then Literal(CString(s.value)) else "null"
  }

  /** Bytes in Base64, or null */
  function BytesText(d: Option<Bytes.bytes>): string
  {
    StringText(if d.Some? then Some(Base64.Encode(d.value)) else None)
  }

  lemma PlainTexts(s: Option<string>, d: Option<Bytes.bytes>, n: int)
    ensures Text(PlainJson(OptString(s))) == StringText(s) && Text(PlainJson(OptBytes(d))) == BytesText(d)
    ensures Text(PlainJson(PInt(n))) == IntText(n)
  {
    TextForms(PlainJson(OptString(s)));
    TextForms(PlainJson(OptBytes(d)));
    TextForms(JInt(n));
  }

  /** A member with a simple name */
  lemma MemberText(name: string, j: Json, text: string)
    requires SimpleName(name) && name != "" && Storable(j) && Text(j) == text
    ensures NulFree(name) && FieldText(Field(name, j)) == Named(name, text)
  {
    NamedLiteral(name, text);
  }

  lemma StringMember(m: (string, Plain), s: Option<string>)
    requires SimpleName(m.0) && m.0 != "" && m.1 == OptString(s)
    ensures NulFree(m.0) && FieldText(Field(m.0, PlainJson(m.1))) == Named(m.0, StringText(s))
  {
    PlainTexts(s, None, 0);
    MemberText(m.0, PlainJson(m.1), StringText(s));
  }

  lemma BytesMember(m: (string, Plain), d: Option<Bytes.bytes>)
    requires SimpleName(m.0) && m.0 != "" && m.1 == OptBytes(d)
    ensures NulFree(m.0) && FieldText(Field(m.0, PlainJson(m.1))) == Named(m.0, BytesText(d))
  {
    PlainTexts(None, d, 0);
    MemberText(m.0, PlainJson(m.1), BytesText(d));
  }

  lemma IntMember(m: (string, Plain), n: int)
    requires SimpleName(m.0) && m.0 != "" && m.1 == PInt(n)
    ensures NulFree(m.0) && FieldText(Field(m.0, PlainJson(m.1))) == Named(m.0, IntText(n))
  {
    PlainTexts(None, None, n);
    MemberText(m.0, PlainJson(m.1), IntText(n));
  }

  lemma ShareStorable(handle: string, key: Bytes.bytes)
    ensures StorableFields(AsFields(ShareMembers(handle, key))) && Storable(ShareJson(handle, key))
  {
    TwoFields(ShareMembers(handle, key));
  }

  lemma ShareMemberTexts(handle: string, key: Bytes.bytes)
    requires StorableFields(AsFields(ShareMembers(handle, key)))
    ensures var us := FieldTexts(AsFields(ShareMembers(handle, key)));
      |us| == 2 && us[0] == Named("handle", StringText(Some(handle))) && us[1] == Named("key", BytesText(Some(key)))
  {
    hide Named, StringText, BytesText, FieldText;
    var ms := ShareMembers(handle, key);
    TwoFields(ms);
    StringMember(ms[0], Some(handle));
    BytesMember(ms[1], Some(key));
  }

  /** A share key */
  lemma ShareText(handle: string, key: Bytes.bytes)
    ensures StorableFields(AsFields(ShareMembers(handle, key))) && Storable(ShareJson(handle, key))
    ensures var us := FieldTexts(AsFields(ShareMembers(handle, key)));
      && |us| == 2 && us[0] == Named("handle", StringText(Some(handle))) && us[1] == Named("key", BytesText(Some(key)))
      && Text(ShareJson(handle, key)) == "{" + Joined(us, false, "}")
  {
    hide Named, StringText, BytesText, FieldTexts, Joined;
    ShareStorable(handle, key);
    ShareMemberTexts(handle, key);
    TextForms(ShareJson(handle, key));
  }

  const NODE_NAMES := ["name", "handle", "parent_handle", "user_handle", "su_handle", "key", "type", "size",
                       "timestamp", "link"]

  /** The names of the members of a node, in order */
  lemma NodeLayout(n: CachedNode, i: nat)
    requires i < 10
    ensures NodeFields(n)[i] == Field(NodeMembers(n)[i].0, PlainJson(NodeMembers(n)[i].1))
    ensures NodeMembers(n)[i].0 == NODE_NAMES[i]
    ensures SimpleName(NodeMembers(n)[i].0) && NodeMembers(n)[i].0 != ""
  {
    AsFieldsAt(NodeMembers(n), i);
    forall k | 0 <= k < |NodeMembers(n)[i].0|
      ensures 'a' <= NodeMembers(n)[i].0[k] <= 'z' || NodeMembers(n)[i].0[k] == '_'
    {
    }
  }

  lemma NodeTextStrings(n: CachedNode)
    requires StorableFields(NodeFields(n))
    ensures var us := FieldTexts(NodeFields(n));
      && us[0] == Named("name", StringText(n.name)) && us[1] == Named("handle", StringText(n.handle))
      && us[2] == Named("parent_handle", StringText(n.parentHandle))
      && us[3] == Named("user_handle", StringText(n.userHandle))
      && us[4] == Named("su_handle", StringText(n.suHandle)) && us[9] == Named("link", StringText(n.link))
  {
    hide FieldText, StringText, Named, SimpleName, AsFields;
    var ms := NodeMembers(n);
    forall i | 0 <= i < 10
      ensures NodeFields(n)[i] == Field(ms[i].0, PlainJson(ms[i].1)) && SimpleName(ms[i].0) && ms[i].0 != ""
    {
      NodeLayout(n, i);
    }
    StringMember(ms[0], n.name);
    StringMember(ms[1], n.handle);
    StringMember(ms[2], n.parentHandle);
    StringMember(ms[3], n.userHandle);
    StringMember(ms[4], n.suHandle);
    StringMember(ms[9], n.link);
  }

  lemma NodeTextNumbers(n: CachedNode)
    requires StorableFields(NodeFields(n))
    ensures var us := FieldTexts(NodeFields(n));
      && us[5] == Named("key", BytesText(n.key)) && us[6] == Named("type", IntText(n.kind))
      && us[7] == Named("size", IntText(Signed(n.size, 0x1_0000_0000_0000_0000)))
      && us[8] == Named("timestamp", IntText(n.timestamp))
  {
    hide FieldText, BytesText, Named, SimpleName, AsFields;
    var ms := NodeMembers(n);
    forall i | 0 <= i < 10
      ensures NodeFields(n)[i] == Field(ms[i].0, PlainJson(ms[i].1)) && SimpleName(ms[i].0) && ms[i].0 != ""
    {
      NodeLayout(n, i);
    }
    BytesMember(ms[5], n.key);
    IntMember(ms[6], n.kind);
    IntMember(ms[7], Signed(n.size, TWO64));
    IntMember(ms[8], n.timestamp);
  }

  /** The members of a node, in order */
  lemma NodeText(n: CachedNode)
    ensures StorableFields(NodeFields(n))
    ensures var us := FieldTexts(NodeFields(n));
      && |us| == 10 && us[0] == Named("name", StringText(n.name)) && us[1] == Named("handle", StringText(n.handle))
      && us[2] == Named("parent_handle", StringText(n.parentHandle))
      && us[3] == Named("user_handle", StringText(n.userHandle))
      && us[4] == Named("su_handle", StringText(n.suHandle))
      && us[5] == Named("key", BytesText(n.key)) && us[6] == Named("type", IntText(n.kind))
      && us[7] == Named("size", IntText(Signed(n.size, 0x1_0000_0000_0000_0000)))
      && us[8] == Named("timestamp", IntText(n.timestamp)) && us[9] == Named("link", StringText(n.link))
    ensures Storable(NodeJson(n)) && Text(NodeJson(n)) == "{" + Joined(FieldTexts(NodeFields(n)), false, "}")
  {
    NodeJsonStorable(n);
    TextForms(NodeJson(n));
    hide Named, StringText, BytesText, Joined, FieldTexts, AsFields;
    NodeTextStrings(n);
    NodeTextNumbers(n);
  }

  lemma ListsStorable(s: Session, order: seq<string>)
    requires GoodShares(order, s.shareKeys)
    ensures StorableFields(RsaFields(s.rsaKey))
    ensures StorableItems(ShareItems(order, s.shareKeys)) && StorableItems(NodeItems(s.fsNodes))
  {
    RsaStorable(s.rsaKey);
    ShareItemsStorable(order, s.shareKeys);
    NodeItemsStorable(s.fsNodes);
  }

  lemma SessionNamesSimple()
    ensures forall i | 0 <= i < 11 :: SimpleName(SESSION_NAMES[i]) && SESSION_NAMES[i] != ""
  {
    forall i, k | 0 <= i < 11 && 0 <= k < |SESSION_NAMES[i]|
      ensures 'a' <= SESSION_NAMES[i][k] <= 'z' || SESSION_NAMES[i][k] == '_'
    {
    }
  }

  lemma FirstTexts(s: Session, order: seq<string>)
    requires GoodShares(order, s.shareKeys) && StorableFields(SessionFields(s, order))
    ensures var us := FieldTexts(SessionFields(s, order));
      && us[0] == Named("version", IntText(3)) && us[1] == Named("last_refresh", IntText(s.lastRefresh))
      && us[2] == Named("sid", StringText(s.sid)) && us[3] == Named("password_key", BytesText(s.passwordKey))
      && us[4] == Named("master_key", BytesText(s.masterKey))
  {
    SessionNamesSimple();
    hide FieldText, StringText, BytesText, Named, SimpleName, ShareItems, NodeItems, RsaFields;
    IntMember((SESSION_NAMES[0], PInt(3)), 3);
    IntMember((SESSION_NAMES[1], PInt(s.lastRefresh)), s.lastRefresh);
    StringMember((SESSION_NAMES[2], OptString(s.sid)), s.sid);
    BytesMember((SESSION_NAMES[3], OptBytes(s.passwordKey)), s.passwordKey);
    BytesMember((SESSION_NAMES[4], OptBytes(s.masterKey)), s.masterKey);
  }

  lemma UserTexts(s: Session, order: seq<string>)
    requires GoodShares(order, s.shareKeys) && StorableFields(SessionFields(s, order))
    ensures var us := FieldTexts(SessionFields(s, order));
      && us[6] == Named("user_handle", StringText(s.userHandle)) && us[7] == Named("user_name", StringText(s.userName))
      && us[8] == Named("user_email", StringText(s.userEmail))
  {
    SessionNamesSimple();
    hide FieldText, StringText, Named, SimpleName, ShareItems, NodeItems, RsaFields;
    StringMember((SESSION_NAMES[6], OptString(s.userHandle)), s.userHandle);
    StringMember((SESSION_NAMES[7], OptString(s.userName)), s.userName);
    StringMember((SESSION_NAMES[8], OptString(s.userEmail)), s.userEmail);
  }

  lemma ObjectMember(name: string, fields: seq<Field>)
    requires SimpleName(name) && name != "" && StorableFields(fields)
    ensures NulFree(name)
    ensures FieldText(Field(name, JObject(fields))) == Named(name, "{" + Joined(FieldTexts(fields), false, "}"))
  {
    TextForms(JObject(fields));
    MemberText(name, JObject(fields), Text(JObject(fields)));
  }

  lemma ArrayMember(name: string, items: seq<Json>)
    requires SimpleName(name) && name != "" && StorableItems(items)
    ensures NulFree(name)
    ensures FieldText(Field(name, JArray(items))) == Named(name, "[" + Joined(ItemTexts(items), false, "]"))
  {
    TextForms(JArray(items));
    MemberText(name, JArray(items), Text(JArray(items)));
  }

  lemma ListTexts(s: Session, order: seq<string>)
    requires GoodShares(order, s.shareKeys) && StorableFields(SessionFields(s, order))
    requires StorableFields(RsaFields(s.rsaKey))
    requires StorableItems(ShareItems(order, s.shareKeys)) && StorableItems(NodeItems(s.fsNodes))
    ensures var us := FieldTexts(SessionFields(s, order));
      && us[5] == Named("rsa_key", "{" + Joined(FieldTexts(RsaFields(s.rsaKey)), false, "}"))
      && us[9] == Named("share_keys", "[" + Joined(ItemTexts(ShareItems(order, s.shareKeys)), false, "]"))
      && us[10] == Named("fs_nodes", "[" + Joined(ItemTexts(NodeItems(s.fsNodes)), false, "]"))
  {
    SessionNamesSimple();
    hide FieldText, Named, SimpleName, ShareItems, NodeItems, RsaFields, Joined, ItemTexts;
    ObjectMember(SESSION_NAMES[5], RsaFields(s.rsaKey));
    ArrayMember(SESSION_NAMES[9], ShareItems(order, s.shareKeys));
    ArrayMember(SESSION_NAMES[10], NodeItems(s.fsNodes));
  }

  /** The members of a cache, in order */
  lemma SessionText(s: Session, order: seq<string>)
    requires GoodShares(order, s.shareKeys)
    ensures StorableFields(SessionFields(s, order)) && StorableFields(RsaFields(s.rsaKey))
    ensures StorableItems(ShareItems(order, s.shareKeys)) && StorableItems(NodeItems(s.fsNodes))
    ensures var us := FieldTexts(SessionFields(s, order));
      && |us| == 11
      && us[0] == Named("version", IntText(3)) && us[1] == Named("last_refresh", IntText(s.lastRefresh))
      && us[2] == Named("sid", StringText(s.sid)) && us[3] == Named("password_key", BytesText(s.passwordKey))
      && us[4] == Named("master_key", BytesText(s.masterKey))
      && us[5] == Named("rsa_key", "{" + Joined(FieldTexts(RsaFields(s.rsaKey)), false, "}"))
      && us[6] == Named("user_handle", StringText(s.userHandle)) && us[7] == Named("user_name", StringText(s.userName))
      && us[8] == Named("user_email", StringText(s.userEmail))
      && us[9] == Named("share_keys", "[" + Joined(ItemTexts(ShareItems(order, s.shareKeys)), false, "]"))
      && us[10] == Named("fs_nodes", "[" + Joined(ItemTexts(NodeItems(s.fsNodes)), false, "]"))
    ensures CacheText(s, order) == "{" + Joined(FieldTexts(SessionFields(s, order)), false, "}")
  {
    SessionStorable(s, order);
    ListsStorable(s, order);
    TextForms(JObject(SessionFields(s, order)));
    hide Named, StringText, BytesText, Joined, ItemTexts, ShareItems, NodeItems, RsaFields, FieldTexts, SessionFields;
    FirstTexts(s, order);
    UserTexts(s, order);
    ListTexts(s, order);
  }

  /** The parts of an RSA key that are there, as decimal numbers in strings */
  lemma RsaText(k: RsaParts)
    ensures RsaFields(k)
      == NumberField("p", k.p) + NumberField("q", k.q) + NumberField("d", k.d) + NumberField("u", k.u)
        + NumberField("m", k.m) + NumberField("e", k.e)
  {
  }

  function NumberField(name: string, n: Option<int>): seq<Field>
  {
    if n.Some? then [Field(name, JString(IntText(n.value)))] else []
  }
}
