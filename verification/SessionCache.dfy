/** Saving a session object to its cache file and loading it back (oldmega.c). */
module SessionCache {
  import opened Wrappers
  import Bytes
  import Base64
  import Aes
  import opened JsonLexer
  import opened JsonGrammar
  import opened JsonStrings
  import opened JsonNumbers
  import opened JsonAccess
  import opened JsonData
  import opened JsonGen
  import opened JsonFields
  import opened NodeAttrs
  import opened CacheNodes
  import opened CacheKeys
  import opened Cache

  // ---- Writing members one after the other ----

  /** The next of the members that an object is to have */
  method PutNext(gen: SJsonGen, name: string, v: Plain, ghost base: seq<Frame>, ghost outer: string,
      ghost all: seq<Field>, ghost k: nat)
    requires base != [] && StorableFields(all) && k < |all| && all[k] == Field(name, PlainJson(v))
    requires Holds(gen, base + [ObjectFrame(outer, all[..k])])
    modifies gen
    ensures Holds(gen, base + [ObjectFrame(outer, all[..k + 1])])
  {
    assert all[..k] + [all[k]] == all[..k + 1];
    PutMember(gen, name, v, base, outer, all[..k]);
  }

  /** Two members one after the other */
  method PutTwo(gen: SJsonGen, name1: string, v1: Plain, name2: string, v2: Plain,
                ghost base: seq<Frame>, ghost outer: string, ghost all: seq<Field>, ghost k: nat)
    requires base != [] && StorableFields(all) && k + 1 < |all|
    requires all[k] == Field(name1, PlainJson(v1)) && all[k + 1] == Field(name2, PlainJson(v2))
    requires Holds(gen, base + [ObjectFrame(outer, all[..k])])
    modifies gen
    ensures Holds(gen, base + [ObjectFrame(outer, all[..k + 2])])
  {
    PutNext(gen, name1, v1, base, outer, all, k);
    PutNext(gen, name2, v2, base, outer, all, k + 1);
  }

  /** `s_json_gen_member_bytes` */
  method PutBytes(gen: SJsonGen, name: string, data: Option<Bytes.bytes>, ghost base: seq<Frame>, ghost outer: string,
                  ghost all: seq<Field>, ghost k: nat)
    requires base != [] && StorableFields(all) && k < |all| && all[k] == Field(name, PlainJson(OptBytes(data)))
    requires Holds(gen, base + [ObjectFrame(outer, all[..k])])
    modifies gen
    ensures Holds(gen, base + [ObjectFrame(outer, all[..k + 1])])
  {
    if data.Some? {
      var tmp := Base64.Encode(data.value);
      PutNext(gen, name, PString(Some(tmp)), base, outer, all, k);
    } else {
      PutNext(gen, name, PNull, base, outer, all, k);
    }
  }

  /** The end of a container under the next name of an object */
  method CloseNext(gen: SJsonGen, isObject: bool, ghost base: seq<Frame>, ghost outer: string, ghost all: seq<Field>,
      ghost k: nat,
                   ghost f: Frame)
    requires base != [] && k < |all| && isObject == f.ObjectFrame? && all[k] == Field(f.name, FrameJson(f))
    requires Holds(gen, base + [ObjectFrame(outer, all[..k])] + [f])
    modifies gen
    ensures Holds(gen, base + [ObjectFrame(outer, all[..k + 1])])
  {
    assert all[..k] + [all[k]] == all[..k + 1];
    AddToTop(base, ObjectFrame(outer, all[..k]), f.name, FrameJson(f));
    CloseFrame(gen, isObject, base + [ObjectFrame(outer, all[..k])], f);
  }

  /** The start of a container under a name */
  method OpenNext(gen: SJsonGen, isObject: bool, name: string, ghost base: seq<Frame>, ghost outer: string,
      ghost fields: seq<Field>)
    requires base != [] && NulFree(name) && Holds(gen, base + [ObjectFrame(outer, fields)])
    modifies gen
    ensures Holds(gen, base + [ObjectFrame(outer, fields)]
      + [if isObject then ObjectFrame(name, []) else ArrayFrame(name, [])])
  {
    CStringOfNulFree(name);
    Call1(gen, if isObject then MemberObject(name) else MemberArray(name), base + [ObjectFrame(outer, fields)]);
  }

  /** The end of an object in an array */
  method CloseItem(gen: SJsonGen, ghost base: seq<Frame>, ghost outer: string, ghost items: seq<Json>,
      ghost fields: seq<Field>)
    requires base != [] && Holds(gen, base + [ArrayFrame(outer, items)] + [ObjectFrame("", fields)])
    modifies gen
    ensures Holds(gen, base + [ArrayFrame(outer, items + [JObject(fields)])])
  {
    AddToTop(base, ArrayFrame(outer, items), "", JObject(fields));
    CloseFrame(gen, true, base + [ArrayFrame(outer, items)], ObjectFrame("", fields));
  }

  // ---- The RSA key ----

  lemma PartField(name: string, n: int)
    ensures PartFields(name, Some(n)) == [Field(name, PlainJson(PString(Some(IntText(n)))))]
  {
    IntCText(n);
    CTextNulFree(IntText(n));
    CStringOfNulFree(IntText(n));
  }

  /** A part of the RSA key, if it is there */
  method PutPart(gen: SJsonGen, name: string, n: Option<int>, ghost base: seq<Frame>, ghost outer: string,
      ghost fields: seq<Field>)
    requires base != [] && NulFree(name) && Holds(gen, base + [ObjectFrame(outer, fields)])
    modifies gen
    ensures Holds(gen, base + [ObjectFrame(outer, fields + PartFields(name, n))])
  {
    if n.Some? {
      PartField(name, n.value);
      PutMember(gen, name, PString(Some(IntText(n.value))), base, outer, fields);
    } else {
      assert fields + [] == fields;
    }
  }

  /** `s_json_gen_member_rsa_key` */
  method PutRsaKey(gen: SJsonGen, name: string, k: RsaParts, ghost base: seq<Frame>, ghost outer: string,
      ghost all: seq<Field>, ghost i: nat)
    requires base != [] && NulFree(name) && i < |all| && all[i] == Field(name, JObject(RsaFields(k)))
    requires Holds(gen, base + [ObjectFrame(outer, all[..i])])
    modifies gen
    ensures Holds(gen, base + [ObjectFrame(outer, all[..i + 1])])
  {
    OpenNext(gen, true, name, base, outer, all[..i]);
    PutParts(gen, k, base + [ObjectFrame(outer, all[..i])], name);
    CloseNext(gen, true, base, outer, all, i, ObjectFrame(name, RsaFields(k)));
  }

  lemma PartsJoined(p: seq<Field>, q: seq<Field>, d: seq<Field>, u: seq<Field>, m: seq<Field>, e: seq<Field>)
    ensures ((((p + q) + d) + u) + m) + e == p + (q + (d + (u + (m + e))))
  {
  }

  method PutParts(gen: SJsonGen, k: RsaParts, ghost base: seq<Frame>, ghost outer: string)
    requires base != [] && Holds(gen, base + [ObjectFrame(outer, [])])
    modifies gen
    ensures Holds(gen, base + [ObjectFrame(outer, RsaFields(k))])
  {
    ghost var p, q, d := PartFields("p", k.p), PartFields("q", k.q), PartFields("d", k.d);
    ghost var u, m, e := PartFields("u", k.u), PartFields("m", k.m), PartFields("e", k.e);
    PutPart(gen, "p", k.p, base, outer, []);
    assert [] + p == p;
    PutPart(gen, "q", k.q, base, outer, p);
    ghost var pqd := (p + q) + d;
    PutPart(gen, "d", k.d, base, outer, p + q);
    PutPart(gen, "u", k.u, base, outer, pqd);
    PutPublic(gen, k, base, outer, pqd + u);
    PartsJoined(p, q, d, u, m, e);
  }

  method PutPublic(gen: SJsonGen, k: RsaParts, ghost base: seq<Frame>, ghost outer: string, ghost fields: seq<Field>)
    requires base != [] && Holds(gen, base + [ObjectFrame(outer, fields)])
    modifies gen
    ensures Holds(gen, base + [ObjectFrame(outer, (fields + PartFields("m", k.m)) + PartFields("e", k.e))])
  {
    PutPart(gen, "m", k.m, base, outer, fields);
    PutPart(gen, "e", k.e, base, outer, fields + PartFields("m", k.m));
  }

  // ---- Share keys and nodes ----

  lemma {:induction false} ShareItemsSnoc(order: seq<string>, keys: map<string, Bytes.bytes>, i: nat)
    requires i < |order| && forall k | 0 <= k < |order| :: order[k] in keys
    ensures ShareItems(order[..i + 1], keys) == ShareItems(order[..i], keys) + [ShareJson(order[i], keys[order[i]])]
    decreases i
  {
    if i > 0 {
      assert order[..i + 1][1..] == order[1..][..i] && order[..i][1..] == order[1..][..i - 1];
      ShareItemsSnoc(order[1..], keys, i - 1);
    } else {
      assert order[..1][1..] == order[..0] == [];
    }
  }

  /** The share keys, written in some order */
  method PutShares(gen: SJsonGen, order: seq<string>, keys: map<string, Bytes.bytes>, ghost base: seq<Frame>,
      ghost outer: string)
    requires base != [] && GoodShares(order, keys) && Holds(gen, base + [ArrayFrame(outer, [])])
    modifies gen
    ensures Holds(gen, base + [ArrayFrame(outer, ShareItems(order, keys))])
  {
    var i := 0;
    assert order[..0] == [];
    while i < |order|
      invariant 0 <= i <= |order|
      invariant Holds(gen, base + [ArrayFrame(outer, ShareItems(order[..i], keys))])
    {
      PutShare(gen, order[i], keys[order[i]], base, outer, ShareItems(order[..i], keys));
      ShareItemsSnoc(order, keys, i);
      i := i + 1;
    }
    assert order[..i] == order;
  }

  lemma ShareFieldsAt(handle: string, key: Bytes.bytes)
    requires CText(handle)
    ensures var all := AsFields(ShareMembers(handle, key));
      && |all| == 2 && StorableFields(all)
      && all[0] == Field("handle", PlainJson(PString(Some(handle))))
      && all[1] == Field("key", PlainJson(OptBytes(Some(key))))
  {
    CTextNulFree(handle);
    ShareFields(handle, key);
    TwoFields(ShareMembers(handle, key));
  }

  /** `save_share_keys` */
  method PutShare(gen: SJsonGen, handle: string, key: Bytes.bytes, ghost base: seq<Frame>, ghost outer: string,
      ghost items: seq<Json>)
    requires base != [] && CText(handle) && Holds(gen, base + [ArrayFrame(outer, items)])
    modifies gen
    ensures Holds(gen, base + [ArrayFrame(outer, items + [ShareJson(handle, key)])])
  {
    ghost var inner := base + [ArrayFrame(outer, items)];
    ghost var all := AsFields(ShareMembers(handle, key));
    ShareFieldsAt(handle, key);
    Call1(gen, StartObject, inner);
    PutShareMembers(gen, handle, key, inner, all);
    CloseItem(gen, base, outer, items, all);
  }

  method PutShareMembers(gen: SJsonGen, handle: string, key: Bytes.bytes, ghost inner: seq<Frame>,
      ghost all: seq<Field>)
    requires inner != [] && |all| == 2 && StorableFields(all)
    requires all[0] == Field("handle", PlainJson(PString(Some(handle))))
      && all[1] == Field("key", PlainJson(OptBytes(Some(key))))
    requires Holds(gen, inner + [ObjectFrame("", [])])
    modifies gen
    ensures Holds(gen, inner + [ObjectFrame("", all)])
  {
    assert all[..0] == [];
    PutNext(gen, "handle", PString(Some(handle)), inner, "", all, 0);
    PutBytes(gen, "key", Some(key), inner, "", all, 1);
    assert all[..2] == all;
  }

  lemma {:induction false} NodeItemsSnoc(nodes: seq<CachedNode>, i: nat)
    requires i < |nodes|
    ensures NodeItems(nodes[..i + 1]) == NodeItems(nodes[..i]) + [NodeJson(nodes[i])]
    decreases i
  {
    if i > 0 {
      assert nodes[..i + 1][1..] == nodes[1..][..i] && nodes[..i][1..] == nodes[1..][..i - 1];
      NodeItemsSnoc(nodes[1..], i - 1);
    } else {
      assert nodes[..1][1..] == nodes[..0] == [];
    }
  }

  /** The nodes, written in their order */
  method PutNodes(gen: SJsonGen, nodes: seq<CachedNode>, ghost base: seq<Frame>, ghost outer: string)
    requires base != [] && Holds(gen, base + [ArrayFrame(outer, [])])
    modifies gen
    ensures Holds(gen, base + [ArrayFrame(outer, NodeItems(nodes))])
  {
    var i := 0;
    assert nodes[..0] == [];
    while i < |nodes|
      invariant 0 <= i <= |nodes|
      invariant Holds(gen, base + [ArrayFrame(outer, NodeItems(nodes[..i]))])
    {
      PutNode(gen, nodes[i], base, outer, NodeItems(nodes[..i]));
      NodeItemsSnoc(nodes, i);
      i := i + 1;
    }
    assert nodes[..i] == nodes;
  }

  /** The members a node is written with, one by one */
  ghost predicate FieldsOf(n: CachedNode, all: seq<Field>)
  {
    && |all| == 10 && StorableFields(all)
    && all[0] == Field("name", PlainJson(PString(n.name))) && all[1] == Field("handle", PlainJson(PString(n.handle)))
    && all[2] == Field("parent_handle", PlainJson(PString(n.parentHandle)))
    && all[3] == Field("user_handle", PlainJson(PString(n.userHandle)))
    && all[4] == Field("su_handle", PlainJson(PString(n.suHandle)))
    && all[5] == Field("key", PlainJson(OptBytes(n.key)))
    && all[6] == Field("type", PlainJson(PInt(n.kind)))
    && all[7] == Field("size", PlainJson(PInt(Signed(n.size, TWO64))))
    && all[8] == Field("timestamp", PlainJson(PInt(n.timestamp))) && all[9] == Field("link", PlainJson(PString(n.link)))
  }

  lemma NodeFieldsAt(n: CachedNode)
    ensures FieldsOf(n, NodeFields(n))
  {
    NodeJsonStorable(n);
    forall i | 0 <= i < 10 ensures NodeFields(n)[i] == Field(NodeMembers(n)[i].0, PlainJson(NodeMembers(n)[i].1)) {
      AsFieldsAt(NodeMembers(n), i);
    }
  }

  /** One node */
  method PutNode(gen: SJsonGen, n: CachedNode, ghost base: seq<Frame>, ghost outer: string, ghost items: seq<Json>)
    requires base != [] && Holds(gen, base + [ArrayFrame(outer, items)])
    modifies gen
    ensures Holds(gen, base + [ArrayFrame(outer, items + [NodeJson(n)])])
  {
    ghost var inner := base + [ArrayFrame(outer, items)];
    ghost var all := NodeFields(n);
    NodeFieldsAt(n);
    Call1(gen, StartObject, inner);
    assert all[..0] == [];
    PutNodeNames(gen, n, inner, all);
    PutNodeHandles(gen, n, inner, all);
    PutNodeRest(gen, n, inner, all);
    assert all[..10] == all;
    CloseItem(gen, base, outer, items, all);
  }

  method PutNodeNames(gen: SJsonGen, n: CachedNode, ghost inner: seq<Frame>, ghost all: seq<Field>)
    requires inner != [] && FieldsOf(n, all) && Holds(gen, inner + [ObjectFrame("", all[..0])])
    modifies gen
    ensures Holds(gen, inner + [ObjectFrame("", all[..2])])
  {
    PutTwo(gen, "name", PString(n.name), "handle", PString(n.handle), inner, "", all, 0);
  }

  method PutNodeHandles(gen: SJsonGen, n: CachedNode, ghost inner: seq<Frame>, ghost all: seq<Field>)
    requires inner != [] && FieldsOf(n, all) && Holds(gen, inner + [ObjectFrame("", all[..2])])
    modifies gen
    ensures Holds(gen, inner + [ObjectFrame("", all[..5])])
  {
    PutNext(gen, "parent_handle", PString(n.parentHandle), inner, "", all, 2);
    PutNext(gen, "user_handle", PString(n.userHandle), inner, "", all, 3);
    PutNext(gen, "su_handle", PString(n.suHandle), inner, "", all, 4);
  }

  method PutNodeRest(gen: SJsonGen, n: CachedNode, ghost inner: seq<Frame>, ghost all: seq<Field>)
    requires inner != [] && FieldsOf(n, all) && Holds(gen, inner + [ObjectFrame("", all[..5])])
    modifies gen
    ensures Holds(gen, inner + [ObjectFrame("", all[..10])])
  {
    PutBytes(gen, "key", n.key, inner, "", all, 5);
    PutNext(gen, "type", PInt(n.kind), inner, "", all, 6);
    PutNext(gen, "size", PInt(Signed(n.size, TWO64)), inner, "", all, 7);
    PutNext(gen, "timestamp", PInt(n.timestamp), inner, "", all, 8);
    PutNext(gen, "link", PString(n.link), inner, "", all, 9);
  }

  // ---- The session ----

  // The members a session is written with, one by one

  ghost predicate VersionAt(s: Session, all: seq<Field>)
  {
    && |all| == 11 && StorableFields(all)
    && all[0] == Field("version", PlainJson(PInt(CACHE_FORMAT_VERSION)))
    && all[1] == Field("last_refresh", PlainJson(PInt(s.lastRefresh)))
  }

  ghost predicate KeysAt(s: Session, all: seq<Field>)
  {
    && |all| == 11 && StorableFields(all)
    && all[2] == Field("sid", PlainJson(PString(s.sid)))
    && all[3] == Field("password_key", PlainJson(OptBytes(s.passwordKey)))
    && all[4] == Field("master_key", PlainJson(OptBytes(s.masterKey)))
    && all[5] == Field("rsa_key", JObject(RsaFields(s.rsaKey)))
  }

  ghost predicate UserAt(s: Session, all: seq<Field>)
  {
    && |all| == 11 && StorableFields(all)
    && all[6] == Field("user_handle", PlainJson(PString(s.userHandle)))
    && all[7] == Field("user_name", PlainJson(PString(s.userName)))
    && all[8] == Field("user_email", PlainJson(PString(s.userEmail)))
  }

  ghost predicate ListsAt(s: Session, order: seq<string>, all: seq<Field>)
  {
    && |all| == 11 && StorableFields(all) && GoodShares(order, s.shareKeys)
    && all[9] == Field("share_keys", JArray(ShareItems(order, s.shareKeys)))
    && all[10] == Field("fs_nodes", JArray(NodeItems(s.fsNodes)))
  }

  lemma SessionFieldsAt(s: Session, order: seq<string>)
    requires GoodShares(order, s.shareKeys)
    ensures var all := SessionFields(s, order);
      VersionAt(s, all) && KeysAt(s, all) && UserAt(s, all) && ListsAt(s, order, all)
  {
    SessionStorable(s, order);
  }

  method SaveVersion(gen: SJsonGen, s: Session, ghost all: seq<Field>)
    requires VersionAt(s, all) && Holds(gen, EMPTY + [ObjectFrame("", all[..0])])
    modifies gen
    ensures Holds(gen, EMPTY + [ObjectFrame("", all[..2])])
  {
    PutTwo(gen, "version", PInt(CACHE_FORMAT_VERSION), "last_refresh", PInt(s.lastRefresh), EMPTY, "", all, 0);
  }

  method SaveKeys(gen: SJsonGen, s: Session, ghost all: seq<Field>)
    requires KeysAt(s, all) && Holds(gen, EMPTY + [ObjectFrame("", all[..2])])
    modifies gen
    ensures Holds(gen, EMPTY + [ObjectFrame("", all[..6])])
  {
    PutNext(gen, "sid", PString(s.sid), EMPTY, "", all, 2);
    PutBytes(gen, "password_key", s.passwordKey, EMPTY, "", all, 3);
    PutBytes(gen, "master_key", s.masterKey, EMPTY, "", all, 4);
    PutRsaKey(gen, "rsa_key", s.rsaKey, EMPTY, "", all, 5);
  }

  method SaveUser(gen: SJsonGen, s: Session, ghost all: seq<Field>)
    requires UserAt(s, all) && Holds(gen, EMPTY + [ObjectFrame("", all[..6])])
    modifies gen
    ensures Holds(gen, EMPTY + [ObjectFrame("", all[..9])])
  {
    PutNext(gen, "user_handle", PString(s.userHandle), EMPTY, "", all, 6);
    PutNext(gen, "user_name", PString(s.userName), EMPTY, "", all, 7);
    PutNext(gen, "user_email", PString(s.userEmail), EMPTY, "", all, 8);
  }

  method SaveShares(gen: SJsonGen, s: Session, order: seq<string>, ghost all: seq<Field>)
    requires ListsAt(s, order, all) && Holds(gen, EMPTY + [ObjectFrame("", all[..9])])
    modifies gen
    ensures Holds(gen, EMPTY + [ObjectFrame("", all[..10])])
  {
    OpenNext(gen, false, "share_keys", EMPTY, "", all[..9]);
    PutShares(gen, order, s.shareKeys, EMPTY + [ObjectFrame("", all[..9])], "share_keys");
    CloseNext(gen, false, EMPTY, "", all, 9, ArrayFrame("share_keys", ShareItems(order, s.shareKeys)));
  }

  method SaveNodes(gen: SJsonGen, s: Session, ghost order: seq<string>, ghost all: seq<Field>)
    requires ListsAt(s, order, all) && Holds(gen, EMPTY + [ObjectFrame("", all[..10])])
    modifies gen
    ensures Holds(gen, EMPTY + [ObjectFrame("", all[..11])])
  {
    OpenNext(gen, false, "fs_nodes", EMPTY, "", all[..10]);
    PutNodes(gen, s.fsNodes, EMPTY + [ObjectFrame("", all[..10])], "fs_nodes");
    CloseNext(gen, false, EMPTY, "", all, 10, ArrayFrame("fs_nodes", NodeItems(s.fsNodes)));
  }

  /** The JSON text of the cache */
  method WriteCache(s: Session, order: seq<string>) returns (cacheData: string)
    requires GoodSession(s, order)
    ensures StorableFields(SessionFields(s, order)) && cacheData == CacheText(s, order)
  {
    ghost var all := SessionFields(s, order);
    SessionFieldsAt(s, order);
    var gen := new SJsonGen();
    WriteMembers(gen, s, order, all);
    CloseFrame(gen, true, EMPTY, ObjectFrame("", all));
    AddToEmpty(JObject(all));
    FinishedText(JObject(all));
    var done := gen.Done();
    cacheData := done.value;
  }

  method WriteMembers(gen: SJsonGen, s: Session, order: seq<string>, ghost all: seq<Field>)
    requires VersionAt(s, all) && KeysAt(s, all) && UserAt(s, all) && ListsAt(s, order, all) && gen.str == ""
    modifies gen
    ensures Holds(gen, EMPTY + [ObjectFrame("", all)])
  {
    WriteScalars(gen, s, all);
    WriteLists(gen, s, order, all);
  }

  method WriteScalars(gen: SJsonGen, s: Session, ghost all: seq<Field>)
    requires VersionAt(s, all) && KeysAt(s, all) && UserAt(s, all) && gen.str == ""
    modifies gen
    ensures Holds(gen, EMPTY + [ObjectFrame("", all[..9])])
  {
    OpenRoot(gen);
    assert all[..0] == [];
    SaveVersion(gen, s, all);
    SaveKeys(gen, s, all);
    SaveUser(gen, s, all);
  }

  method WriteLists(gen: SJsonGen, s: Session, order: seq<string>, ghost all: seq<Field>)
    requires ListsAt(s, order, all) && Holds(gen, EMPTY + [ObjectFrame("", all[..9])])
    modifies gen
    ensures Holds(gen, EMPTY + [ObjectFrame("", all)])
  {
    SaveShares(gen, s, order, all);
    SaveNodes(gen, s, order, all);
    assert all[..11] == all;
  }

  /** All that a cache object holds but the lists */
  method ReadScalars(obj: string, refresh: int, sid: Option<string>) returns (s: Session)
    requires refresh == MemberInt(obj, 0, "last_refresh", 0) && sid == MemberString(obj, 0, "sid")
    ensures s == RestoredScalars(obj)
  {
    var passwordKey, masterKey, rsaKey := ReadKeys(obj);
    var userHandle, userName, userEmail := ReadUser(obj);
    s := Session(refresh, sid, passwordKey, masterKey, rsaKey, userHandle, userName, userEmail, map[], []);
  }

  method ReadKeys(obj: string)
    returns (passwordKey: Option<Bytes.bytes>, masterKey: Option<Bytes.bytes>, rsaKey: RsaParts)
    ensures passwordKey == MemberBytes(obj, 0, "password_key") && masterKey == MemberBytes(obj, 0, "master_key")
    ensures rsaKey == MemberRsa(obj, 0, "rsa_key")
  {
    passwordKey := GetMemberBytes(obj, 0, "password_key");
    masterKey := GetMemberBytes(obj, 0, "master_key");
    rsaKey := GetMemberRsaKey(obj, 0, "rsa_key");
  }

  method ReadUser(obj: string) returns (userHandle: Option<string>, userName: Option<string>, userEmail: Option<string>)
    ensures userHandle == MemberString(obj, 0, "user_handle") && userName == MemberString(obj, 0, "user_name")
    ensures userEmail == MemberString(obj, 0, "user_email")
  {
    userHandle := GetMemberString(obj, 0, "user_handle");
    userName := GetMemberString(obj, 0, "user_name");
    userEmail := GetMemberString(obj, 0, "user_email");
  }

  class MegaSession {
    var lastRefresh: int
    var sid: Option<string>
    var passwordKey: Option<Bytes.bytes>
    var masterKey: Option<Bytes.bytes>
    var rsaKey: RsaParts
    var userHandle: Option<string>
    var userName: Option<string>
    var userEmail: Option<string>
    var shareKeys: map<string, Bytes.bytes>
    var fsNodes: seq<CachedNode>

    /** `mega_session_new` */
    constructor ()
      ensures State() == CLOSED
    {
      lastRefresh, sid, passwordKey, masterKey, rsaKey := 0, None, None, None, NO_RSA;
      userHandle, userName, userEmail, shareKeys, fsNodes := None, None, None, map[], [];
    }

    function State(): Session
      reads this
    {
      Session(lastRefresh, sid, passwordKey, masterKey, rsaKey, userHandle, userName, userEmail, shareKeys, fsNodes)
    }

    /** `mega_session_save`, up to the text that goes into the file; the share keys come in some order,
        and `after` is the memory behind the text. */
    method Save(aes: Aes.Cipher, key: Aes.Block, order: seq<string>, after: Aes.Memory) returns (cipher: string)
      requires GoodSession(State(), order) && passwordKey == Some(key) && userEmail.Some?
      ensures StorableFields(SessionFields(State(), order)) && CText("MEGA" + CacheText(State(), order))
      ensures cipher == Saved(aes, key, State(), order, after)
    {
      CacheTextClean(State(), order);
      var cacheData := WriteCache(State(), order);
      var tmp := "MEGA" + cacheData;
      cipher := Aes.EncryptString(aes, key, ToBytes(tmp), after);
    }

    /** `mega_session_close` */
    method Close()
      modifies this
      ensures State() == CLOSED
    {
      lastRefresh, sid, passwordKey, masterKey, rsaKey := 0, None, None, None, NO_RSA;
      userHandle, userName, userEmail, shareKeys, fsNodes := None, None, None, map[], [];
    }

    /** `mega_session_load`, from the text that was in the file: the outcome, what is left in the object, and the
        session identifier that is handed out */
    method Load(aes: Aes.Cipher, cipher: string, key: Aes.Block, maxAge: int, now: int)
      returns (error: Option<LoadError>, lastSid: Option<string>)
      modifies this
      ensures var buffer := Decrypted(aes, key, cipher);
        match BufferOutcome(buffer, maxAge, now)
        case Failed(e) => error == Some(e) && State() == BufferLeft(buffer, e)
        case Loaded(s) => error == None && State() == s
      ensures lastSid == BufferSid(Decrypted(aes, key, cipher))
      ensures error.Some? && error != Some(Incomplete) ==>
        && lastRefresh == 0 && sid == userHandle == userName == userEmail == None && passwordKey == masterKey == None
        && rsaKey == RsaParts(None, None, None, None, None, None) && shareKeys == map[] && fsNodes == []
      ensures var buffer := Decrypted(aes, key, cipher);
        && (error == Some(IncorrectPassword) <==>
              buffer.Some? && |buffer.value| >= 4 && buffer.value[..4] != "MEGA")
        && (var obj := BufferObject(buffer);
            error == Some(VersionMismatch) <==>
              && obj.CacheObject? && NextToken(obj.obj, 0).kind == ObjStart
              && MemberInt(obj.obj, 0, "version", 0) != 3)
        && (var obj := BufferObject(buffer);
            error == Some(TimedOut) <==>
              && obj.CacheObject? && NextToken(obj.obj, 0).kind == ObjStart && MemberInt(obj.obj, 0, "version", 0) == 3
              && maxAge > 0 && (var refresh := MemberInt(obj.obj, 0, "last_refresh", 0);
                                refresh == 0 || refresh + maxAge < now))
    {
      FailuresOf(Decrypted(aes, key, cipher), maxAge, now);
      Close();
      lastSid := None;
      var data := Aes.DecryptCbc(aes, key, cipher);
      if data.None? || |data.value| < 4 {
        return Some(CorruptFile), lastSid;
      }
      var buffer := FromBytes(data.value);
      if buffer[..4] != "MEGA" {
        return Some(IncorrectPassword), lastSid;
      }
      var text := CString(buffer[4..]);
      var valid := IsValid(text);
      if !valid {
        return Some(CorruptFile), lastSid;
      }
      var cacheObj := Get(text);
      if cacheObj.None? {
        return Some(CorruptCache), lastSid;
      }
      error, lastSid := LoadObject(cacheObj.value, maxAge, now);
    }

    /** The part of `mega_session_load` that reads the cache object */
    method LoadObject(obj: string, maxAge: int, now: int) returns (error: Option<LoadError>, lastSid: Option<string>)
      requires State() == CLOSED
      modifies this
      ensures match ObjectOutcome(obj, maxAge, now)
        case Failed(e) => error == Some(e) && State() == ObjectLeft(obj, e)
        case Loaded(s) => error == None && State() == s
      ensures lastSid == ObjectSid(obj)
    {
      lastSid := None;
      var t := GetToken(obj, 0);
      if t.kind != ObjStart {
        return Some(CorruptCache), lastSid;
      }
      var version := GetMemberInt(obj, 0, "version", 0);
      var refresh := GetMemberInt(obj, 0, "last_refresh", 0);
      if version != CACHE_FORMAT_VERSION {
        return Some(VersionMismatch), lastSid;
      }
      lastSid := GetMemberString(obj, 0, "sid");
      if maxAge > 0 {
        if refresh == 0 || refresh + maxAge < now {
          return Some(TimedOut), lastSid;
        }
      }
      error := LoadValid(obj, refresh, lastSid);
    }

    /** A cache object of the right version that is not too old */
    method LoadValid(obj: string, refresh: int, lastSid: Option<string>) returns (error: Option<LoadError>)
      requires refresh == MemberInt(obj, 0, "last_refresh", 0) && lastSid == MemberString(obj, 0, "sid")
      requires shareKeys == map[] && fsNodes == []
      modifies this
      ensures error == if Complete(Restored(obj)) then None else Some(Incomplete)
      ensures State() == if Complete(Restored(obj)) then Restored(obj) else ObjectLeft(obj, Incomplete)
    {
      var scalars := ReadScalars(obj, refresh, lastSid);
      SetScalars(scalars);
      var complete := HasAll();
      if !complete {
        return Some(Incomplete);
      }
      LoadLists(obj);
      return None;
    }

    /** The test for the parts a session must have */
    method HasAll() returns (complete: bool)
      ensures complete == Complete(State())
    {
      if sid.None? || passwordKey.None? || masterKey.None? || userHandle.None? || userEmail.None?
        || rsaKey.p.None? || rsaKey.q.None? || rsaKey.d.None? || rsaKey.u.None? {
        return false;
      }
      return true;
    }

    method SetScalars(s: Session)
      modifies `lastRefresh, `sid, `passwordKey, `masterKey, `rsaKey, `userHandle, `userName, `userEmail
      ensures SameScalars(State(), s)
    {
      lastRefresh, sid, passwordKey, masterKey, rsaKey := s.lastRefresh, s.sid, s.passwordKey, s.masterKey, s.rsaKey;
      userHandle, userName, userEmail := s.userHandle, s.userName, s.userEmail;
    }

    method LoadLists(obj: string)
      modifies `shareKeys, `fsNodes
      ensures shareKeys == SharesUnder(obj) && fsNodes == NodesUnder(obj)
    {
      shareKeys, fsNodes := map[], [];
      var skNodes := GetMember(obj, 0, "share_keys");
      if skNodes.Some? {
        var t := GetToken(obj, skNodes.value);
        if t.kind == ArrayStart {
          shareKeys := LoadShares(obj, skNodes.value);
        }
      }
      var nodes := GetMember(obj, 0, "fs_nodes");
      if nodes.Some? {
        var t := GetToken(obj, nodes.value);
        if t.kind == ArrayStart {
          fsNodes := LoadNodes(obj, nodes.value);
        }
      }
    }
  }

  lemma NodesAtSnoc(text: string, at: seq<nat>, e: nat)
    requires (forall i | 0 <= i < |at| :: at[i] <= |text|) && e <= |text|
    ensures NodesAt(text, at + [e]) == NodesAt(text, at) + [NodeAt(text, e)]
  {
  }

  /** The node loop of `mega_session_load`: nodes are put in front and the list is turned round. */
  method LoadNodes(text: string, pos: nat) returns (nodes: seq<CachedNode>)
    requires pos <= |text|
    ensures nodes == NodesAt(text, Elements(text, pos))
  {
    var list: seq<CachedNode> := [];
    ghost var done: seq<nat> := [];
    var elem := GetElementFirst(text, pos);
    while elem.Some?
      invariant (elem.Some? ==> elem.value <= |text|) && (forall i | 0 <= i < |done| :: done[i] <= |text|)
      invariant Elements(text, pos) == done + ElementsFrom(text, elem)
      invariant Reversed(list) == NodesAt(text, done)
      decreases if elem.Some? then |text| + 1 - elem.value else 0
    {
      var n := LoadNode(text, elem.value);
      NodesAtSnoc(text, done, elem.value);
      SnocCons(done, elem.value, ElementsFrom(text, ElementNext(text, elem.value)));
      assert ([n] + list)[1..] == list;
      list := [n] + list;
      done := done + [elem.value];
      elem := GetElementNext(text, elem.value);
    }
    assert done + [] == done;
    nodes := Reversed(list);
  }

  /** Saving a session and loading the file into another session object with the same password key: the state
      comes back, and the session identifier even when the cache is too old. */
  method SaveThenLoad(aes: Aes.Cipher, key: Aes.Block, a: MegaSession, b: MegaSession, order: seq<string>,
      after: Aes.Memory, maxAge: int, now: int)
    returns (error: Option<LoadError>, lastSid: Option<string>)
    requires Aes.Lawful(aes) && a != b && GoodSession(a.State(), order) && a.passwordKey == Some(key)
      && a.userEmail.Some?
    modifies b
    ensures error == Some(TimedOut) <==> maxAge > 0 && (a.lastRefresh == 0 || a.lastRefresh + maxAge < now)
    ensures error == Some(Incomplete) <==>
      && error != Some(TimedOut)
      && (a.sid.None? || a.passwordKey.None? || a.masterKey.None? || a.userHandle.None? || a.userEmail.None?
          || a.rsaKey.p.None? || a.rsaKey.q.None? || a.rsaKey.d.None? || a.rsaKey.u.None?)
    ensures error == Some(Incomplete) ==> b.State() == a.State().(shareKeys := map[], fsNodes := [])
    ensures error != Some(TimedOut) && error != Some(Incomplete) ==> error == None && b.State() == a.State()
    ensures lastSid == a.sid
  {
    var cipher := a.Save(aes, key, order, after);
    CacheRoundTrip(aes, key, a.State(), order, after, maxAge, now);
    error, lastSid := b.Load(aes, cipher, key, maxAge, now);
  }
}
