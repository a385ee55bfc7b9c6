/** The session cache (oldmega.c): `mega_session_save` and `mega_session_load`. */
module Cache {
  import opened Wrappers
  import Bytes
  import Aes
  import opened JsonLexer
  import opened JsonGrammar
  import opened JsonStrings
  import opened JsonAccess
  import opened JsonData
  import opened JsonGen
  import opened JsonFields
  import opened NodeAttrs
  import opened CacheNodes
  import opened CacheKeys

  /** What is saved of a session */
  datatype Session = Session(lastRefresh: int, sid: Option<string>, passwordKey: Option<Bytes.bytes>,
                             masterKey: Option<Bytes.bytes>, rsaKey: RsaParts, userHandle: Option<string>,
                             userName: Option<string>, userEmail: Option<string>,
                             shareKeys: map<string, Bytes.bytes>, fsNodes: seq<CachedNode>)

  const CACHE_FORMAT_VERSION := 3

  // ---- The cache object ----

  function NodeItems(nodes: seq<CachedNode>): (items: seq<Json>)
    ensures |items| == |nodes|
  {
    if nodes == [] then [] else [NodeJson(nodes[0])] + NodeItems(nodes[1..])
  }

  predicate GoodNodes(nodes: seq<CachedNode>)
  {
    forall i | 0 <= i < |nodes| :: GoodNode(nodes[i])
  }

  /** A key of a session is sixteen bytes long. */
  predicate GoodKey(key: Option<Bytes.bytes>)
  {
    key.Some? ==> |key.value| == 16
  }

  /** Texts are C strings, keys have their length, numbers fit their types, and the order is one of the
      handles of the share keys. */
  ghost predicate GoodSession(s: Session, order: seq<string>)
  {
    && GoodText(s.sid) && GoodText(s.userHandle) && GoodText(s.userName) && GoodText(s.userEmail)
    && GoodKey(s.passwordKey) && GoodKey(s.masterKey)
    && GoodShares(order, s.shareKeys) && (forall h :: h in order <==> h in s.shareKeys) && GoodNodes(s.fsNodes)
  }

  function SessionFields(s: Session, order: seq<string>): (fs: seq<Field>)
    requires GoodShares(order, s.shareKeys)
    ensures |fs| == 11
  {
    [Field("version", JInt(CACHE_FORMAT_VERSION)), Field("last_refresh", JInt(s.lastRefresh)),
     Field("sid", PlainJson(OptString(s.sid))), Field("password_key", PlainJson(OptBytes(s.passwordKey))),
     Field("master_key", PlainJson(OptBytes(s.masterKey))), Field("rsa_key", JObject(RsaFields(s.rsaKey))),
     Field("user_handle", PlainJson(OptString(s.userHandle))), Field("user_name", PlainJson(OptString(s.userName))),
     Field("user_email", PlainJson(OptString(s.userEmail))),
     Field("share_keys", JArray(ShareItems(order, s.shareKeys))), Field("fs_nodes", JArray(NodeItems(s.fsNodes)))]
  }

  lemma {:induction false} NodeItemsStorable(nodes: seq<CachedNode>)
    ensures StorableItems(NodeItems(nodes))
  {
    if nodes != [] {
      NodeJsonStorable(nodes[0]);
      NodeItemsStorable(nodes[1..]);
    }
  }

  const SESSION_NAMES := ["version", "last_refresh", "sid", "password_key", "master_key", "rsa_key", "user_handle",
                          "user_name", "user_email", "share_keys", "fs_nodes"]

  lemma SessionNamesNulFree()
    ensures forall i | 0 <= i < 11 :: NulFree(SESSION_NAMES[i])
  {
    forall i, k | 0 <= i < 11 && 0 <= k < |SESSION_NAMES[i]| ensures SESSION_NAMES[i][k] != '\0' {
    }
  }

  lemma SessionValuesStorable(s: Session, order: seq<string>)
    requires GoodShares(order, s.shareKeys)
    ensures forall i | 0 <= i < 11 ::
      SessionFields(s, order)[i].name == SESSION_NAMES[i] && Storable(SessionFields(s, order)[i].value)
  {
    RsaStorable(s.rsaKey);
    ShareItemsStorable(order, s.shareKeys);
    NodeItemsStorable(s.fsNodes);
  }

  lemma SessionStorable(s: Session, order: seq<string>)
    requires GoodShares(order, s.shareKeys)
    ensures StorableFields(SessionFields(s, order))
  {
    SessionNamesNulFree();
    SessionValuesStorable(s, order);
  }

  /** No two names are the same: they differ in length or in the first character. */
  lemma SessionNames(s: Session, order: seq<string>)
    requires GoodShares(order, s.shareKeys)
    ensures DistinctNames(SessionFields(s, order))
  {
    var fs := SessionFields(s, order);
    forall i, j | 0 <= i < j < |fs| ensures fs[i].name != fs[j].name {
      assert |fs[i].name| != |fs[j].name| || fs[i].name[0] != fs[j].name[0];
    }
  }

  // ---- Restoring ----

  /** The nodes at some positions */
  function NodesAt(text: string, at: seq<nat>): (nodes: seq<CachedNode>)
    requires forall i | 0 <= i < |at| :: at[i] <= |text|
    ensures |nodes| == |at|
  {
    seq(|at|, i requires 0 <= i < |at| => NodeAt(text, at[i]))
  }

  /** The position of an array under a name */
  function ArrayUnder(text: string, name: string): (r: Option<nat>)
    ensures r.Some? ==> r.value <= |text|
  {
    var v := Lookup(text, 0, name);
    if v.Some? && NextToken(text, v.value).kind == ArrayStart then v else None
  }

  function SharesUnder(text: string): map<string, Bytes.bytes>
  {
    var v := ArrayUnder(text, "share_keys");
    if v.Some? then SharesFrom(text, ElementFirst(text, v.value), map[]) else map[]
  }

  function NodesUnder(text: string): seq<CachedNode>
  {
    var v := ArrayUnder(text, "fs_nodes");
    if v.Some? then NodesAt(text, Elements(text, v.value)) else []
  }

  /** What a cache object holds, without the lists */
  function RestoredScalars(text: string): Session
  {
    Session(MemberInt(text, 0, "last_refresh", 0), MemberString(text, 0, "sid"), MemberBytes(text, 0, "password_key"),
            MemberBytes(text, 0, "master_key"), MemberRsa(text, 0, "rsa_key"), MemberString(text, 0, "user_handle"),
            MemberString(text, 0, "user_name"), MemberString(text, 0, "user_email"), map[], [])
  }

  /** What a cache object holds */
  function Restored(text: string): Session
  {
    RestoredScalars(text).(shareKeys := SharesUnder(text), fsNodes := NodesUnder(text))
  }

  /** The parts a loaded session must have */
  predicate Complete(s: Session)
  {
    && s.sid.Some? && s.passwordKey.Some? && s.masterKey.Some? && s.userHandle.Some? && s.userEmail.Some?
    && s.rsaKey.p.Some? && s.rsaKey.q.Some? && s.rsaKey.d.Some? && s.rsaKey.u.Some?
  }

  const CLOSED := Session(0, None, None, None, NO_RSA, None, None, None, map[], [])

  /** Two sessions that agree in all but the lists */
  predicate SameScalars(a: Session, b: Session)
  {
    && a.lastRefresh == b.lastRefresh && a.sid == b.sid && a.passwordKey == b.passwordKey && a.masterKey == b.masterKey
    && a.rsaKey == b.rsaKey && a.userHandle == b.userHandle && a.userName == b.userName && a.userEmail == b.userEmail
  }

  datatype LoadError = CorruptFile | IncorrectPassword | CorruptCache | VersionMismatch | TimedOut | Incomplete

  datatype Outcome = Failed(error: LoadError) | Loaded(session: Session)

  function Aged(lastRefresh: int, maxAge: int, now: int): bool
  {
    maxAge > 0 && (lastRefresh == 0 || lastRefresh + maxAge < now)
  }

  /** What loading a cache object comes to */
  function ObjectOutcome(obj: string, maxAge: int, now: int): Outcome
  {
    if NextToken(obj, 0).kind != ObjStart then Failed(CorruptCache)
    else if MemberInt(obj, 0, "version", 0) != CACHE_FORMAT_VERSION then Failed(VersionMismatch)
    else if Aged(MemberInt(obj, 0, "last_refresh", 0), maxAge, now) then Failed(TimedOut)
    else if !Complete(Restored(obj)) then Failed(Incomplete)
    else Loaded(Restored(obj))
  }

  /** The session identifier that loading hands out: the one in a cache of the right version, even if the cache
      is too old or incomplete */
  function ObjectSid(obj: string): Option<string>
  {
    if NextToken(obj, 0).kind == ObjStart && MemberInt(obj, 0, "version", 0) == CACHE_FORMAT_VERSION
    then MemberString(obj, 0, "sid") else None
  }

  /** What is left in the session when loading a cache object fails: nothing, or all but the lists */
  function ObjectLeft(obj: string, error: LoadError): Session
  {
    if error == Incomplete then RestoredScalars(obj) else CLOSED
  }

  datatype Found = Missing(error: LoadError) | CacheObject(obj: string)

  /** The cache object in a decrypted buffer, or why there is none */
  ghost function BufferObject(buffer: Option<string>): Found
  {
    if buffer.None? || |buffer.value| < 4 then Missing(CorruptFile)
    else if buffer.value[..4] != "MEGA" then Missing(IncorrectPassword)
    else
      var text := CString(buffer.value[4..]);
      if !IsJson(text) then Missing(CorruptFile)
      else if ValueText(text).Some? then CacheObject(ValueText(text).value)
      else Missing(CorruptCache)
  }

  /** What loading a decrypted buffer comes to */
  ghost function BufferOutcome(buffer: Option<string>, maxAge: int, now: int): Outcome
  {
    match BufferObject(buffer)
    case Missing(error) => Failed(error)
    case CacheObject(obj) => ObjectOutcome(obj, maxAge, now)
  }

  /** When loading fails for a wrong password, a wrong version or age */
  lemma FailuresOf(buffer: Option<string>, maxAge: int, now: int)
    ensures BufferOutcome(buffer, maxAge, now) == Failed(IncorrectPassword) <==>
      buffer.Some? && |buffer.value| >= 4 && buffer.value[..4] != "MEGA"
    ensures var obj := BufferObject(buffer);
      && (BufferOutcome(buffer, maxAge, now) == Failed(VersionMismatch) <==>
            && obj.CacheObject? && NextToken(obj.obj, 0).kind == ObjStart
            && MemberInt(obj.obj, 0, "version", 0) != 3)
      && (BufferOutcome(buffer, maxAge, now) == Failed(TimedOut) <==>
            && obj.CacheObject? && NextToken(obj.obj, 0).kind == ObjStart && MemberInt(obj.obj, 0, "version", 0) == 3
            && maxAge > 0 && (var refresh := MemberInt(obj.obj, 0, "last_refresh", 0);
                              refresh == 0 || refresh + maxAge < now))
  {
    hide NextToken, MemberInt, IsJson, ValueText, Restored, CString, Complete;
  }

  ghost function BufferSid(buffer: Option<string>): Option<string>
  {
    match BufferObject(buffer)
    case Missing(error) => None
    case CacheObject(obj) => ObjectSid(obj)
  }

  /** What is left in the session when loading a decrypted buffer fails */
  ghost function BufferLeft(buffer: Option<string>, error: LoadError): Session
  {
    match BufferObject(buffer)
    case Missing(_) => CLOSED
    case CacheObject(obj) => ObjectLeft(obj, error)
  }

  function Decrypted(aes: Aes.Cipher, key: Aes.Block, cipher: string): Option<string>
  {
    var d := Aes.DecryptCbc(aes, key, cipher);
    if d.Some? then Some(FromBytes(d.value)) else None
  }

  /** g_slist_reverse */
  function Reversed<T>(s: seq<T>): seq<T>
  {
    if s == [] then [] else Reversed(s[1..]) + [s[0]]
  }

  // ---- What was saved is restored ----

  lemma {:induction false} NodeItemsAt(nodes: seq<CachedNode>, i: nat)
    requires i < |nodes|
    ensures NodeItems(nodes)[i] == NodeJson(nodes[i])
  {
    if i > 0 {
      NodeItemsAt(nodes[1..], i - 1);
    }
  }

  /** The saved nodes are loaded in their order. */
  lemma {:induction false} NodesRoundTrip(text: string, pos: nat, nodes: seq<CachedNode>)
    requires GoodNodes(nodes) && StorableItems(NodeItems(nodes))
      && SpelledAt(text, pos, ToValue(JArray(NodeItems(nodes))))
    ensures pos <= |text| && NodesAt(text, Elements(text, pos)) == nodes
  {
    var items := NodeItems(nodes);
    var e: nat :| Spells(text, pos, ToValue(JArray(items)), e);
    ElementsExactly(text, pos, ToValues(items), e);
    var at := Elements(text, pos);
    forall i | 0 <= i < |nodes| ensures NodeAt(text, at[i]) == nodes[i] {
      assert SpelledAt(text, at[i], ToValues(items)[i]);
      ToValuesAt(items, i);
      NodeItemsAt(nodes, i);
      NodeRoundTrip(text, at[i], nodes[i]);
    }
  }

  /** What is under a name of a saved session */
  lemma FieldSpelled(s: Session, order: seq<string>, text: string, i: nat)
    requires GoodShares(order, s.shareKeys) && StorableFields(SessionFields(s, order)) && i < 11
    requires Spells(text, 0, ToValue(JObject(SessionFields(s, order))), |text|)
    ensures var f := SessionFields(s, order)[i];
      && FieldValue(SessionFields(s, order), f.name) == Some(f.value)
      && Storable(f.value) && Lookup(text, 0, f.name).Some?
      && SpelledAt(text, Lookup(text, 0, f.name).value, ToValue(f.value))
  {
    SessionNames(s, order);
    FieldValueAt(SessionFields(s, order), i);
    FieldLookup(text, 0, SessionFields(s, order), |text|, SessionFields(s, order)[i].name);
  }

  /** A text or bytes member of a saved session */
  lemma TextBack(s: Session, order: seq<string>, text: string, i: nat)
    requires GoodShares(order, s.shareKeys) && StorableFields(SessionFields(s, order)) && i < 11
    requires Spells(text, 0, ToValue(JObject(SessionFields(s, order))), |text|)
    ensures var f := SessionFields(s, order)[i];
      MemberString(text, 0, f.name) == AsString(f.value) && MemberBytes(text, 0, f.name) == AsBytes(f.value)
  {
    var f := SessionFields(s, order)[i];
    FieldSpelled(s, order, text, i);
    SpelledValue(text, Lookup(text, 0, f.name).value, f.value);
  }

  /** A text spells the cache object of a session. */
  ghost predicate Caches(text: string, s: Session, order: seq<string>)
  {
    && GoodSession(s, order) && StorableFields(SessionFields(s, order))
    && Spells(text, 0, ToValue(JObject(SessionFields(s, order))), |text|)
  }

  lemma IntBack(s: Session, order: seq<string>, text: string, i: nat, name: string, n: int)
    requires Caches(text, s, order) && i < 11 && SessionFields(s, order)[i] == Field(name, JInt(n))
    ensures MemberInt(text, 0, name, 0) == n
  {
    SessionNames(s, order);
    FieldValueAt(SessionFields(s, order), i);
    FieldInt(text, 0, SessionFields(s, order), |text|, name, 0);
  }

  lemma VersionBack(s: Session, order: seq<string>, text: string)
    requires Caches(text, s, order)
    ensures MemberInt(text, 0, "version", 0) == CACHE_FORMAT_VERSION
  {
    IntBack(s, order, text, 0, "version", CACHE_FORMAT_VERSION);
  }

  lemma RefreshBack(s: Session, order: seq<string>, text: string)
    requires Caches(text, s, order)
    ensures MemberInt(text, 0, "last_refresh", 0) == s.lastRefresh
  {
    IntBack(s, order, text, 1, "last_refresh", s.lastRefresh);
  }

  lemma StringBack(s: Session, order: seq<string>, text: string, i: nat, v: Option<string>)
    requires Caches(text, s, order) && i < 11 && GoodText(v)
      && SessionFields(s, order)[i].value == PlainJson(OptString(v))
    ensures MemberString(text, 0, SessionFields(s, order)[i].name) == v
  {
    TextBack(s, order, text, i);
    if v.Some? {
      CTextNulFree(v.value);
    }
    OptStringBack(v);
  }

  lemma BytesBack(s: Session, order: seq<string>, text: string, i: nat, v: Option<Bytes.bytes>)
    requires Caches(text, s, order) && i < 11 && SessionFields(s, order)[i].value == PlainJson(OptBytes(v))
    ensures MemberBytes(text, 0, SessionFields(s, order)[i].name) == v
  {
    TextBack(s, order, text, i);
    OptBytesBack(v);
  }

  lemma RsaUnder(s: Session, order: seq<string>, text: string, i: nat, k: RsaParts)
    requires Caches(text, s, order) && i < 11 && SessionFields(s, order)[i].value == JObject(RsaFields(k))
    ensures MemberRsa(text, 0, SessionFields(s, order)[i].name) == k
  {
    FieldSpelled(s, order, text, i);
    RsaRoundTrip(text, Lookup(text, 0, SessionFields(s, order)[i].name).value, k);
  }

  lemma RsaBack(s: Session, order: seq<string>, text: string)
    requires Caches(text, s, order)
    ensures MemberRsa(text, 0, "rsa_key") == s.rsaKey
  {
    RsaUnder(s, order, text, 5, s.rsaKey);
  }

  lemma ArrayBack(s: Session, order: seq<string>, text: string, i: nat)
    requires Caches(text, s, order) && i < 11 && SessionFields(s, order)[i].value.JArray?
    ensures var f := SessionFields(s, order)[i];
      ArrayUnder(text, f.name).Some? && Storable(f.value)
        && SpelledAt(text, ArrayUnder(text, f.name).value, ToValue(f.value))
  {
    FieldSpelled(s, order, text, i);
    SpelledReads(text, Lookup(text, 0, SessionFields(s, order)[i].name).value, SessionFields(s, order)[i].value);
  }

  lemma ListsBack(s: Session, order: seq<string>, text: string)
    requires Caches(text, s, order)
    ensures SharesUnder(text) == s.shareKeys && NodesUnder(text) == s.fsNodes
  {
    ArrayBack(s, order, text, 9);
    SharesRoundTrip(text, ArrayUnder(text, "share_keys").value, order, s.shareKeys);
    ArrayBack(s, order, text, 10);
    NodesRoundTrip(text, ArrayUnder(text, "fs_nodes").value, s.fsNodes);
  }

  lemma SidBack(s: Session, order: seq<string>, text: string)
    requires Caches(text, s, order)
    ensures MemberString(text, 0, "sid") == s.sid
  {
    StringBack(s, order, text, 2, s.sid);
  }

  lemma KeysBack(s: Session, order: seq<string>, text: string)
    requires Caches(text, s, order)
    ensures MemberBytes(text, 0, "password_key") == s.passwordKey && MemberBytes(text, 0, "master_key") == s.masterKey
  {
    BytesBack(s, order, text, 3, s.passwordKey);
    BytesBack(s, order, text, 4, s.masterKey);
  }

  lemma UserBack(s: Session, order: seq<string>, text: string)
    requires Caches(text, s, order)
    ensures MemberString(text, 0, "user_handle") == s.userHandle && MemberString(text, 0, "user_name") == s.userName
    ensures MemberString(text, 0, "user_email") == s.userEmail
  {
    StringBack(s, order, text, 6, s.userHandle);
    StringBack(s, order, text, 7, s.userName);
    StringBack(s, order, text, 8, s.userEmail);
  }

  /** A cache object is restored to the session it was written for: scalars, share keys and nodes. */
  lemma RestoredBack(s: Session, order: seq<string>, text: string)
    requires Caches(text, s, order)
    ensures Restored(text) == s
  {
    RefreshBack(s, order, text);
    SidBack(s, order, text);
    KeysBack(s, order, text);
    RsaBack(s, order, text);
    UserBack(s, order, text);
    ListsBack(s, order, text);
  }

  function CacheText(s: Session, order: seq<string>): string
    requires GoodShares(order, s.shareKeys) && StorableFields(SessionFields(s, order))
  {
    Text(JObject(SessionFields(s, order)))
  }

  /** The cache object found in a buffer that holds a saved session as a C string */
  lemma {:induction false} BufferHoldsCache(s: Session, order: seq<string>, buffer: string)
    requires GoodSession(s, order) && StorableFields(SessionFields(s, order))
    requires |buffer| > |CacheText(s, order)| + 4 && CString(buffer) == "MEGA" + CacheText(s, order)
    ensures BufferObject(Some(buffer)) == CacheObject(CacheText(s, order)) && Caches(CacheText(s, order), s, order)
    ensures NextToken(CacheText(s, order), 0).kind == ObjStart
  {
    var fields, text := SessionFields(s, order), CacheText(s, order);
    BufferSplits(buffer, text);
    FinishedText(JObject(fields));
    ObjectIsolated(fields, text);
    ObjectStarts(fields, text);
  }

  /** Loading what was saved */
  lemma {:induction false} BufferRoundTrip(s: Session, order: seq<string>, buffer: string, maxAge: int, now: int)
    requires GoodSession(s, order) && StorableFields(SessionFields(s, order))
    requires |buffer| > |CacheText(s, order)| + 4 && CString(buffer) == "MEGA" + CacheText(s, order)
    ensures BufferOutcome(Some(buffer), maxAge, now) ==
      if Aged(s.lastRefresh, maxAge, now) then Failed(TimedOut)
      else if !Complete(s) then Failed(Incomplete)
      else Loaded(s)
    ensures BufferSid(Some(buffer)) == s.sid
    ensures BufferLeft(Some(buffer), Incomplete) == s.(shareKeys := map[], fsNodes := [])
  {
    var text := CacheText(s, order);
    BufferHoldsCache(s, order, buffer);
    VersionBack(s, order, text);
    RefreshBack(s, order, text);
    SidBack(s, order, text);
    RestoredBack(s, order, text);
  }

  lemma {:induction false} BufferSplits(buffer: string, text: string)
    requires CString(buffer) == "MEGA" + text
    ensures |buffer| >= 4 && buffer[..4] == "MEGA" && CString(buffer[4..]) == text
  {
    var c := "MEGA" + text;
    assert c == buffer[..|c|];
    assert buffer[..4] == c[..4] == "MEGA";
    assert text == c[4..] == buffer[4..][..|text|];
    assert NulFree(text) by {
      assert forall i | 0 <= i < |text| :: text[i] == c[i + 4];
    }
    assert At(buffer[4..], |text|) == At(buffer, |c|);
    CStringUnique(buffer[4..], text);
  }

  // ---- Saving ----

  /** The bytes that are encrypted are those of the text. */
  lemma PlainClean(v: Plain)
    requires v.PString? ==> GoodText(v.s)
    ensures Clean(PlainJson(v))
  {
    if v.PString? && v.s.Some? {
      CTextNulFree(v.s.value);
      CStringOfNulFree(v.s.value);
    }
  }

  lemma OptBytesClean(d: Option<Bytes.bytes>)
    ensures Clean(PlainJson(OptBytes(d)))
  {
    if d.Some? {
      Base64Text(d.value);
    }
    PlainClean(OptBytes(d));
  }

  lemma {:induction false} AsFieldsClean(ms: seq<(string, Plain)>)
    requires forall i | 0 <= i < |ms| :: CText(ms[i].0) && Clean(PlainJson(ms[i].1))
    ensures CleanFields(AsFields(ms))
  {
    if ms != [] {
      AsFieldsClean(ms[1..]);
    }
  }

  lemma NodeClean(n: CachedNode)
    requires GoodNode(n)
    ensures Clean(NodeJson(n))
  {
    PlainClean(OptString(n.name));
    PlainClean(OptString(n.handle));
    PlainClean(OptString(n.parentHandle));
    PlainClean(OptString(n.userHandle));
    PlainClean(OptString(n.suHandle));
    PlainClean(OptString(n.link));
    OptBytesClean(n.key);
    NodeNamesClean(n);
    AsFieldsClean(NodeMembers(n));
  }

  lemma NodeNamesClean(n: CachedNode)
    ensures forall i | 0 <= i < |NodeMembers(n)| :: CText(NodeMembers(n)[i].0)
  {
    forall i, k | 0 <= i < |NodeMembers(n)| && 0 <= k < |NodeMembers(n)[i].0| ensures ByteChar(NodeMembers(n)[i].0[k]) {
    }
  }

  lemma {:induction false} NodesClean(nodes: seq<CachedNode>)
    requires GoodNodes(nodes)
    ensures CleanItems(NodeItems(nodes))
  {
    if nodes != [] {
      NodeClean(nodes[0]);
      NodesClean(nodes[1..]);
    }
  }

  lemma {:induction false} SharesClean(order: seq<string>, keys: map<string, Bytes.bytes>)
    requires GoodShares(order, keys)
    ensures CleanItems(ShareItems(order, keys))
  {
    if order != [] {
      var ms := ShareMembers(order[0], keys[order[0]]);
      PlainClean(ms[0].1);
      OptBytesClean(Some(keys[order[0]]));
      AsFieldsClean(ms);
      SharesClean(order[1..], keys);
    }
  }

  lemma PartClean(name: string, n: Option<int>)
    requires CText(name)
    ensures CleanFields(PartFields(name, n))
  {
    if n.Some? {
      IntCText(n.value);
    }
  }

  lemma CleanAppend(xs: seq<Field>, ys: seq<Field>)
    requires CleanFields(xs) && CleanFields(ys)
    ensures CleanFields(xs + ys)
  {
  }

  lemma PartsClean(name: string, n: Option<int>, rest: seq<Field>)
    requires CText(name) && CleanFields(rest)
    ensures CleanFields(PartFields(name, n) + rest)
  {
    PartClean(name, n);
    CleanAppend(PartFields(name, n), rest);
  }

  lemma RsaClean(k: RsaParts)
    ensures CleanFields(RsaFields(k))
  {
    var e := PartFields("e", k.e);
    var me := PartFields("m", k.m) + e;
    var ue := PartFields("u", k.u) + me;
    var de := PartFields("d", k.d) + ue;
    PartClean("e", k.e);
    PartsClean("m", k.m, e);
    PartsClean("u", k.u, me);
    PartsClean("d", k.d, ue);
    PartsClean("q", k.q, de);
    PartsClean("p", k.p, PartFields("q", k.q) + de);
  }

  lemma SessionNamesClean()
    ensures forall i | 0 <= i < 11 :: CText(SESSION_NAMES[i])
  {
    forall i, k | 0 <= i < 11 && 0 <= k < |SESSION_NAMES[i]| ensures ByteChar(SESSION_NAMES[i][k]) {
    }
  }

  lemma ScalarsClean(s: Session, order: seq<string>)
    requires GoodSession(s, order)
    ensures Clean(PlainJson(OptString(s.sid))) && Clean(PlainJson(OptBytes(s.passwordKey)))
    ensures Clean(PlainJson(OptBytes(s.masterKey))) && Clean(PlainJson(OptString(s.userHandle)))
    ensures Clean(PlainJson(OptString(s.userName))) && Clean(PlainJson(OptString(s.userEmail)))
  {
    PlainClean(OptString(s.sid));
    OptBytesClean(s.passwordKey);
    OptBytesClean(s.masterKey);
    PlainClean(OptString(s.userHandle));
    PlainClean(OptString(s.userName));
    PlainClean(OptString(s.userEmail));
  }

  lemma ListsClean(s: Session, order: seq<string>)
    requires GoodSession(s, order)
    ensures Clean(JObject(RsaFields(s.rsaKey))) && Clean(JArray(ShareItems(order, s.shareKeys)))
    ensures Clean(JArray(NodeItems(s.fsNodes)))
  {
    RsaClean(s.rsaKey);
    SharesClean(order, s.shareKeys);
    NodesClean(s.fsNodes);
  }

  lemma SessionValuesClean(s: Session, order: seq<string>)
    requires GoodSession(s, order)
    ensures forall i | 0 <= i < 11 ::
      SessionFields(s, order)[i].name == SESSION_NAMES[i] && Clean(SessionFields(s, order)[i].value)
  {
    ScalarsClean(s, order);
    ListsClean(s, order);
  }

  /** The cache text of a session is a C string of bytes. */
  lemma CacheTextClean(s: Session, order: seq<string>)
    requires GoodSession(s, order)
    ensures StorableFields(SessionFields(s, order)) && CText("MEGA" + CacheText(s, order))
  {
    SessionStorable(s, order);
    SessionNamesClean();
    SessionValuesClean(s, order);
    TextIsCText(JObject(SessionFields(s, order)));
  }

  /** The cache file that is written for a session, with the memory behind the text */
  function Saved(aes: Aes.Cipher, key: Aes.Block, s: Session, order: seq<string>, after: Aes.Memory): string
    requires GoodShares(order, s.shareKeys) && StorableFields(SessionFields(s, order))
      && CText("MEGA" + CacheText(s, order))
  {
    Aes.EncryptString(aes, key, ToBytes("MEGA" + CacheText(s, order)), after)
  }

  /** Loading with the same password key what was saved gives the session back, exactly when the cache is not
      too old and the session has its essential parts. */
  lemma CacheRoundTrip(aes: Aes.Cipher, key: Aes.Block, s: Session, order: seq<string>, after: Aes.Memory,
      maxAge: int, now: int)
    requires Aes.Lawful(aes) && GoodSession(s, order)
    ensures StorableFields(SessionFields(s, order)) && CText("MEGA" + CacheText(s, order))
    ensures BufferOutcome(Decrypted(aes, key, Saved(aes, key, s, order, after)), maxAge, now) ==
      if maxAge > 0 && (s.lastRefresh == 0 || s.lastRefresh + maxAge < now) then Failed(TimedOut)
      else if s.sid.None? || s.passwordKey.None? || s.masterKey.None? || s.userHandle.None? || s.userEmail.None?
        || s.rsaKey.p.None? || s.rsaKey.q.None? || s.rsaKey.d.None? || s.rsaKey.u.None? then Failed(Incomplete)
      else Loaded(s)
    ensures BufferSid(Decrypted(aes, key, Saved(aes, key, s, order, after))) == s.sid
    ensures BufferLeft(Decrypted(aes, key, Saved(aes, key, s, order, after)), Incomplete)
      == s.(shareKeys := map[], fsNodes := [])
  {
    CacheTextClean(s, order);
    var text := "MEGA" + CacheText(s, order);
    DecryptedText(aes, key, text, after);
    BufferRoundTrip(s, order, Decrypted(aes, key, Saved(aes, key, s, order, after)).value, maxAge, now);
  }
}
