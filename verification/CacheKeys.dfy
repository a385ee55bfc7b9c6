/** Share keys and the RSA key in the session cache (oldmega.c). */
module CacheKeys {
  import opened Wrappers
  import Bytes
  import Base64
  import opened JsonLexer
  import opened JsonGrammar
  import opened JsonStrings
  import opened JsonNumbers
  import opened JsonAccess
  import opened JsonData
  import opened JsonGen
  import opened JsonFields
  import opened CacheNodes

  // ---- Share keys ----

  function ShareMembers(handle: string, key: Bytes.bytes): seq<(string, Plain)>
  {
    [("handle", OptString(Some(handle))), ("key", OptBytes(Some(key)))]
  }

  function ShareJson(handle: string, key: Bytes.bytes): Json
  {
    JObject(AsFields(ShareMembers(handle, key)))
  }

  /** The saved share keys, in some order of the handles */
  function ShareItems(order: seq<string>, keys: map<string, Bytes.bytes>): (items: seq<Json>)
    requires forall i | 0 <= i < |order| :: order[i] in keys
    ensures |items| == |order|
  {
    if order == [] then [] else [ShareJson(order[0], keys[order[0]])] + ShareItems(order[1..], keys)
  }

  /** g_memdup(key, 16) of a buffer that long */
  function Memdup16(d: Bytes.bytes): (r: Bytes.bytes)
    ensures r <= d && |r| == if |d| < 16 then |d| else 16
  {
    if |d| >= 16 then d[..16] else d
  }

  function MemberBytes(text: string, pos: nat, name: string): Option<Bytes.bytes>
    requires pos <= |text|
  {
    var v := Lookup(text, pos, name);
    if v.Some? then BytesAt(text, v.value) else None
  }

  /** `s_json_get_member_bytes` */
  method GetMemberBytes(text: string, pos: nat, name: string) returns (r: Option<Bytes.bytes>)
    requires pos <= |text|
    ensures r == MemberBytes(text, pos, name)
  {
    var v := GetMember(text, pos, name);
    if v.Some? {
      r := GetBytes(text, v.value);
    } else {
      r := None;
    }
  }

  /** `add_share_key`, which ignores missing arguments */
  function WithShare(keys: map<string, Bytes.bytes>, handle: Option<string>,
      key: Option<Bytes.bytes>): map<string, Bytes.bytes>
  {
    if handle.Some? && key.Some? then keys[handle.value := Memdup16(key.value)] else keys
  }

  function SharesFrom(text: string, elem: Option<nat>, keys: map<string, Bytes.bytes>): map<string, Bytes.bytes>
    requires elem.Some? ==> elem.value <= |text|
    decreases if elem.Some? then |text| + 1 - elem.value else 0
  {
    if elem.None? then keys
    else SharesFrom(text, ElementNext(text, elem.value),
                    WithShare(keys, MemberString(text, elem.value, "handle"), MemberBytes(text, elem.value, "key")))
  }

  /** The share key loop of `mega_session_load` */
  method LoadShares(text: string, pos: nat) returns (keys: map<string, Bytes.bytes>)
    requires pos <= |text|
    ensures keys == SharesFrom(text, ElementFirst(text, pos), map[])
  {
    keys := map[];
    var elem := GetElementFirst(text, pos);
    while elem.Some?
      invariant elem.Some? ==> elem.value <= |text|
      invariant SharesFrom(text, elem, keys) == SharesFrom(text, ElementFirst(text, pos), map[])
      decreases if elem.Some? then |text| + 1 - elem.value else 0
    {
      var handle := GetMemberString(text, elem.value, "handle");
      var key := GetMemberBytes(text, elem.value, "key");
      if handle.Some? && key.Some? {
        keys := keys[handle.value := Memdup16(key.value)];
      }
      elem := GetElementNext(text, elem.value);
    }
  }

  lemma {:induction false} TwoFields(ms: seq<(string, Plain)>)
    requires |ms| == 2
    ensures AsFields(ms) == [Field(ms[0].0, PlainJson(ms[0].1)), Field(ms[1].0, PlainJson(ms[1].1))]
  {
    var tail := ms[1..];
    assert |tail| == 1 && tail[0] == ms[1];
    assert tail[1..] == [];
  }

  lemma TwoValues(a: Field, b: Field)
    requires a.name != b.name
    ensures FieldValue([a, b], a.name) == Some(a.value) && FieldValue([a, b], b.name) == Some(b.value)
  {
    assert [a, b][1..] == [b];
  }

  lemma {:induction false} ShareFields(handle: string, key: Bytes.bytes)
    requires NulFree(handle)
    ensures var fs := AsFields(ShareMembers(handle, key));
      && StorableFields(fs) && fs == [Field("handle", JString(handle)), Field("key", JString(Base64.Encode(key)))]
      && FieldValue(fs, "handle") == Some(JString(handle)) && FieldValue(fs, "key") == Some(JString(Base64.Encode(key)))
  {
    CStringOfNulFree(handle);
    Base64Text(key);
    CStringOfNulFree(Base64.Encode(key));
    TwoFields(ShareMembers(handle, key));
    TwoValues(Field("handle", JString(handle)), Field("key", JString(Base64.Encode(key))));
  }

  /** A share key that is written and loaded again */
  lemma ShareBack(text: string, at: nat, handle: string, key: Bytes.bytes)
    requires NulFree(handle) && Storable(ShareJson(handle, key)) && SpelledAt(text, at, ToValue(ShareJson(handle, key)))
    ensures at <= |text| && MemberString(text, at, "handle") == Some(handle)
      && MemberBytes(text, at, "key") == Some(key)
  {
    var fs := AsFields(ShareMembers(handle, key));
    ShareFields(handle, key);
    var e: nat :| Spells(text, at, ToValue(ShareJson(handle, key)), e);
    FieldString(text, at, fs, e, "handle");
    FieldLookup(text, at, fs, e, "key");
    SpelledValue(text, Lookup(text, at, "key").value, JString(Base64.Encode(key)));
    Base64.DecodeOfEncode(key);
  }

  predicate GoodShares(order: seq<string>, keys: map<string, Bytes.bytes>)
  {
    forall i | 0 <= i < |order| :: order[i] in keys && CText(order[i]) && |keys[order[i]]| == 16
  }

  lemma {:induction false} ShareItemsStorable(order: seq<string>, keys: map<string, Bytes.bytes>)
    requires GoodShares(order, keys)
    ensures StorableItems(ShareItems(order, keys))
  {
    if order != [] {
      CTextNulFree(order[0]);
      ShareFields(order[0], keys[order[0]]);
      ShareItemsStorable(order[1..], keys);
    }
  }

  /** Keys added in some order to those there already */
  function Added(order: seq<string>, keys: map<string, Bytes.bytes>,
      have: map<string, Bytes.bytes>): map<string, Bytes.bytes>
    requires forall i | 0 <= i < |order| :: order[i] in keys
  {
    if order == [] then have else Added(order[1..], keys, have[order[0] := keys[order[0]]])
  }

  lemma {:induction false} AddedAll(order: seq<string>, keys: map<string, Bytes.bytes>, have: map<string, Bytes.bytes>)
    requires forall i | 0 <= i < |order| :: order[i] in keys
    ensures var all := Added(order, keys, have);
      && (forall h | h in order :: h in all && all[h] == keys[h])
      && (forall h | h in have && h !in order :: h in all && all[h] == have[h])
      && (forall h | h in all :: h in order || h in have)
    decreases order
  {
    if order != [] {
      var h0 := order[0];
      AddedAll(order[1..], keys, have[h0 := keys[h0]]);
      assert forall h :: h in order <==> h == h0 || h in order[1..];
    }
  }

  /** Loading one share key that was written */
  lemma {:induction false} ShareStep(text: string, elem: nat, handle: string, key: Bytes.bytes,
      have: map<string, Bytes.bytes>)
    requires elem <= |text| && CText(handle) && |key| == 16
    requires Storable(ShareJson(handle, key)) && SpelledAt(text, elem, ToValue(ShareJson(handle, key)))
    ensures SharesFrom(text, Some(elem), have) == SharesFrom(text, ElementNext(text, elem), have[handle := key])
  {
    CTextNulFree(handle);
    ShareBack(text, elem, handle, key);
    assert Memdup16(key) == key;
  }

  /** The first of the items that are listed, and the rest */
  lemma {:induction false} ListedItems(text: string, elem: Option<nat>, items: seq<Json>)
    requires (elem.Some? ==> elem.value <= |text|) && StorableItems(items) && items != []
    requires Listed(text, ElementsFrom(text, elem), ToValues(items))
    ensures elem.Some? && SpelledAt(text, elem.value, ToValue(items[0]))
    ensures Listed(text, ElementsFrom(text, ElementNext(text, elem.value)), ToValues(items[1..]))
  {
    var at := ElementsFrom(text, elem);
    assert SpelledAt(text, at[0], ToValues(items)[0]);
    ElementsTail(text, at, ToValues(items));
    assert at[1..] == ElementsFrom(text, ElementNext(text, elem.value)) && ToValues(items)[1..] == ToValues(items[1..]);
  }

  lemma {:induction false} SharesBack(text: string, elem: Option<nat>, order: seq<string>,
      keys: map<string, Bytes.bytes>,
                                      have: map<string, Bytes.bytes>)
    requires (elem.Some? ==> elem.value <= |text|) && GoodShares(order, keys)
    requires StorableItems(ShareItems(order, keys))
      && Listed(text, ElementsFrom(text, elem), ToValues(ShareItems(order, keys)))
    ensures SharesFrom(text, elem, have) == Added(order, keys, have)
    decreases order
  {
    if order != [] {
      var h, items := order[0], ShareItems(order, keys);
      ListedItems(text, elem, items);
      assert items[1..] == ShareItems(order[1..], keys);
      ShareStep(text, elem.value, h, keys[h], have);
      SharesBack(text, ElementNext(text, elem.value), order[1..], keys, have[h := keys[h]]);
    }
  }

  lemma ElementsTail(text: string, at: seq<nat>, items: seq<Value>)
    requires Listed(text, at, items) && at != []
    ensures Listed(text, at[1..], items[1..])
  {
    forall i | 0 <= i < |at[1..]| ensures SpelledAt(text, at[1..][i], items[1..][i]) {
      assert SpelledAt(text, at[i + 1], items[i + 1]);
    }
  }

  lemma AddedIsAll(order: seq<string>, keys: map<string, Bytes.bytes>)
    requires (forall i | 0 <= i < |order| :: order[i] in keys) && (forall h :: h in order <==> h in keys)
    ensures Added(order, keys, map[]) == keys
  {
    AddedAll(order, keys, map[]);
  }

  lemma {:induction false} SharesAdded(text: string, pos: nat, order: seq<string>, keys: map<string, Bytes.bytes>)
    requires GoodShares(order, keys)
    requires StorableItems(ShareItems(order, keys)) && SpelledAt(text, pos, ToValue(JArray(ShareItems(order, keys))))
    ensures pos <= |text| && SharesFrom(text, ElementFirst(text, pos), map[]) == Added(order, keys, map[])
  {
    var items := ShareItems(order, keys);
    var e: nat :| Spells(text, pos, ToValue(JArray(items)), e);
    ElementsExactly(text, pos, ToValues(items), e);
    SharesBack(text, ElementFirst(text, pos), order, keys, map[]);
  }

  /** The share keys that are written, in any order that has each handle, are loaded as the same map. */
  lemma {:induction false} SharesRoundTrip(text: string, pos: nat, order: seq<string>, keys: map<string, Bytes.bytes>)
    requires GoodShares(order, keys) && (forall h :: h in order <==> h in keys)
    requires StorableItems(ShareItems(order, keys)) && SpelledAt(text, pos, ToValue(JArray(ShareItems(order, keys))))
    ensures pos <= |text| && SharesFrom(text, ElementFirst(text, pos), map[]) == keys
  {
    SharesAdded(text, pos, order, keys);
    AddedIsAll(order, keys);
  }

  // ---- The RSA key ----

  datatype RsaParts = RsaParts(p: Option<int>, q: Option<int>, d: Option<int>, u: Option<int>, m: Option<int>,
      e: Option<int>)

  const NO_RSA := RsaParts(None, None, None, None, None, None)

  /** The member of a part that is there: the number in decimal, as a string */
  function PartFields(name: string, n: Option<int>): seq<Field>
  {
    if n.Some? then [Field(name, JString(IntText(n.value)))] else []
  }

  function RsaFields(k: RsaParts): seq<Field>
  {
    PartFields("p", k.p) + (PartFields("q", k.q) + (PartFields("d", k.d)
    + (PartFields("u", k.u) + (PartFields("m", k.m) + PartFields("e", k.e)))))
  }

  /** BN_dec2bn: an optional minus sign and at least one digit; what follows is not looked at. */
  function BnOf(s: string): Option<int>
  {
    if DigitStop(s, SignLength(s)) > SignLength(s) then Some(IntOf(s)) else None
  }

  function MemberBn(text: string, pos: nat, name: string): Option<int>
    requires pos <= |text|
  {
    var s := MemberString(text, pos, name);
    if s.Some? then BnOf(s.value) else None
  }

  /** `s_json_get_member_bn` */
  method GetMemberBn(text: string, pos: nat, name: string) returns (r: Option<int>)
    requires pos <= |text|
    ensures r == MemberBn(text, pos, name)
  {
    var data := GetMemberString(text, pos, name);
    r := if data.Some? then BnOf(data.value) else None;
  }

  function RsaAt(text: string, pos: nat): RsaParts
    requires pos <= |text|
  {
    RsaParts(MemberBn(text, pos, "p"), MemberBn(text, pos, "q"), MemberBn(text, pos, "d"),
             MemberBn(text, pos, "u"), MemberBn(text, pos, "m"), MemberBn(text, pos, "e"))
  }

  function MemberRsa(text: string, pos: nat, name: string): RsaParts
    requires pos <= |text|
  {
    var v := Lookup(text, pos, name);
    if v.Some? && NextToken(text, v.value).kind == ObjStart then RsaAt(text, v.value) else NO_RSA
  }

  /** `s_json_get_member_rsa_key` into an empty key */
  method GetMemberRsaKey(text: string, pos: nat, name: string) returns (k: RsaParts)
    requires pos <= |text|
    ensures k == MemberRsa(text, pos, name)
  {
    k := NO_RSA;
    var member := GetMember(text, pos, name);
    if member.None? {
      return;
    }
    var t := GetToken(text, member.value);
    if t.kind != ObjStart {
      return;
    }
    var p := GetMemberBn(text, member.value, "p");
    var q := GetMemberBn(text, member.value, "q");
    var d := GetMemberBn(text, member.value, "d");
    var u := GetMemberBn(text, member.value, "u");
    var m := GetMemberBn(text, member.value, "m");
    var e := GetMemberBn(text, member.value, "e");
    k := RsaParts(p, q, d, u, m, e);
  }

  lemma BnBack(n: int)
    ensures BnOf(IntText(n)) == Some(n)
  {
    IntOfText(n);
    var x := IntText(n);
    DecimalShape(if n < 0 then -n else n);
    var i := SignLength(x);
    if n < 0 {
      assert x[1] == Decimal(-n)[0];
    }
    assert Digit(x[i]);
  }

  /** What is under a name in a list of parts with other names in front */
  lemma {:induction false} PartFirst(name: string, n: Option<int>, rest: seq<Field>, other: string)
    ensures FieldValue(PartFields(name, n) + rest, other) ==
      if n.Some? && name == other then Some(JString(IntText(n.value))) else FieldValue(rest, other)
  {
    FieldValueAppend(PartFields(name, n), rest, other);
    if n.Some? {
      assert PartFields(name, n)[1..] == [];
    }
  }

  /** The value of a part in the list of all */
  lemma {:induction false} PartsValue(k: RsaParts, other: string)
    ensures FieldValue(RsaFields(k), other) ==
      if other == "p" then PartValue(k.p) else if other == "q" then PartValue(k.q)
      else if other == "d" then PartValue(k.d)
      else if other == "u" then PartValue(k.u) else if other == "m" then PartValue(k.m)
      else if other == "e" then PartValue(k.e)
      else None
  {
    var e := PartFields("e", k.e);
    var me := PartFields("m", k.m) + e;
    var ue := PartFields("u", k.u) + me;
    var de := PartFields("d", k.d) + ue;
    var qe := PartFields("q", k.q) + de;
    PartFirst("p", k.p, qe, other);
    PartFirst("q", k.q, de, other);
    PartFirst("d", k.d, ue, other);
    PartFirst("u", k.u, me, other);
    PartFirst("m", k.m, e, other);
    PartFirst("e", k.e, [], other);
    assert e + [] == e;
  }

  function PartValue(n: Option<int>): Option<Json>
  {
    if n.Some? then Some(JString(IntText(n.value))) else None
  }

  lemma RsaStorable(k: RsaParts)
    ensures StorableFields(RsaFields(k))
  {
    PartStorable("p", k.p);
    PartStorable("q", k.q);
    PartStorable("d", k.d);
    PartStorable("u", k.u);
    PartStorable("m", k.m);
    PartStorable("e", k.e);
  }

  lemma PartStorable(name: string, n: Option<int>)
    requires NulFree(name)
    ensures StorableFields(PartFields(name, n))
  {
    if n.Some? {
      IntCText(n.value);
      CTextNulFree(IntText(n.value));
    }
  }

  lemma {:induction false} PartBack(text: string, at: nat, k: RsaParts, end: nat, name: string, n: Option<int>)
    requires at <= |text| && StorableFields(RsaFields(k)) && Spells(text, at, ToValue(JObject(RsaFields(k))), end)
    requires NulFree(name) && FieldValue(RsaFields(k), name) == PartValue(n)
    ensures MemberBn(text, at, name) == n
  {
    FieldString(text, at, RsaFields(k), end, name);
    if n.Some? {
      BnBack(n.value);
    }
  }

  /** A key that is written and loaded again has the same parts, present or not. */
  lemma {:induction false} RsaRoundTrip(text: string, at: nat, k: RsaParts)
    requires StorableFields(RsaFields(k)) && SpelledAt(text, at, ToValue(JObject(RsaFields(k))))
    ensures at <= |text| && NextToken(text, at).kind == ObjStart && RsaAt(text, at) == k
  {
    var e: nat :| Spells(text, at, ToValue(JObject(RsaFields(k))), e);
    SpelledReads(text, at, JObject(RsaFields(k)));
    PartsValue(k, "p");
    PartBack(text, at, k, e, "p", k.p);
    PartsValue(k, "q");
    PartBack(text, at, k, e, "q", k.q);
    PartsValue(k, "d");
    PartBack(text, at, k, e, "d", k.d);
    PartsValue(k, "u");
    PartBack(text, at, k, e, "u", k.u);
    PartsValue(k, "m");
    PartBack(text, at, k, e, "m", k.m);
    PartsValue(k, "e");
    PartBack(text, at, k, e, "e", k.e);
  }
}
