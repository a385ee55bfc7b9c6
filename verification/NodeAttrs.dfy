/** Node attributes (oldmega.c): a name is written as JSON, encrypted as a string and read back. */
module NodeAttrs {
  import opened Wrappers
  import Bytes
  import Aes
  import opened JsonLexer
  import opened JsonGrammar
  import opened JsonStrings
  import opened JsonData
  import opened JsonGen
  import opened JsonFields

  // ---- Texts and bytes ----

  function ToBytes(s: string): (d: Bytes.bytes)
    requires CText(s)
    ensures |d| == |s|
  {
    seq(|s|, i requires 0 <= i < |s| => s[i] as int)
  }

  function FromBytes(d: Bytes.bytes): (s: string)
    ensures |s| == |d|
  {
    seq(|d|, i requires 0 <= i < |d| => d[i] as char)
  }

  /** The buffer a text was decrypted from, read as a C string */
  lemma BufferHolds(s: string, after: Aes.Memory)
    requires CText(s)
    ensures 0 !in ToBytes(s) && CString(FromBytes(Aes.PlainText(ToBytes(s), after))) == s
  {
    var d := Aes.PlainText(ToBytes(s), after);
    var buffer := FromBytes(d);
    assert NulFree(s) && s <= buffer by {
      forall i | 0 <= i < |s| ensures buffer[i] == s[i] {
        assert d[..|s|][i] == ToBytes(s)[i];
      }
      assert buffer[..|s|] == s;
    }
    assert d[|s|] == 0 && At(buffer, |s|) == '\0';
    CStringUnique(buffer, s);
  }

  /** What decrypting gives as a C string: the encrypted one */
  lemma DecryptedText(aes: Aes.Cipher, key: Aes.Block, s: string, after: Aes.Memory)
    requires Aes.Lawful(aes) && CText(s)
    ensures var d := Aes.DecryptCbc(aes, key, Aes.EncryptString(aes, key, ToBytes(s), after));
      d.Some? && |d.value| > |s| && CString(FromBytes(d.value)) == s
  {
    BufferHolds(s, after);
    Aes.EncryptStringRoundTrip(aes, key, ToBytes(s), after);
  }

  // ---- Attributes ----

  function NameFields(name: string): seq<Field>
  {
    [Field("n", JString(name))]
  }

  function Attrs(name: string): string
    requires NulFree(name)
  {
    "MEGA" + Text(JObject(NameFields(name)))
  }

  /** The attribute text: one member with the name n */
  lemma AttrsText(name: string)
    requires NulFree(name)
    ensures Attrs(name) == "MEGA" + ("{" + (Named("n", Literal(name)) + "}"))
  {
    var member := FieldText(Field("n", JString(name)));
    TextForms(JObject(NameFields(name)));
    TextForms(JString(name));
    NamedLiteral("n", Literal(name));
    assert FieldTexts(NameFields(name)) == [member];
    JoinedForms(member, "", [], "}");
  }

  /** `encode_node_attrs` */
  method EncodeNodeAttrs(name: string) returns (attrs: string)
    ensures attrs == Attrs(CString(name))
  {
    ghost var n := CString(name);
    ghost var fields := NameFields(n);
    var gen := new SJsonGen();
    OpenRoot(gen);
    PutMember(gen, "n", PString(Some(name)), EMPTY, "", []);
    assert [] + [Field("n", JString(n))] == fields;
    CloseFrame(gen, true, EMPTY, ObjectFrame("", fields));
    AddToEmpty(JObject(fields));
    FinishedText(JObject(fields));
    var attrsJson := gen.Done();
    attrs := "MEGA" + attrsJson.value;
  }

  /** What decoding gives: nothing, or what is under the name "n" */
  ghost function DecodedAttrs(attrs: string): Option<Option<string>>
  {
    if "MEGA{" <= attrs && IsJson(attrs[4..]) then Some(MemberString(attrs[4..], 0, "n")) else None
  }

  /** `decode_node_attrs` */
  method DecodeNodeAttrs(attrs: string) returns (r: Option<Option<string>>)
    ensures r == DecodedAttrs(attrs)
    ensures r.None? <==> !("MEGA{" <= attrs) || !IsJson(attrs[4..])
  {
    if !("MEGA{" <= attrs) {
      return None;
    }
    var valid := IsValid(attrs[4..]);
    if !valid {
      return None;
    }
    var name := GetMemberString(attrs[4..], 0, "n");
    return Some(name);
  }

  ghost function DecryptedAttrs(aes: Aes.Cipher, encrypted: string, key: Aes.Block): Option<Option<string>>
  {
    var d := Aes.DecryptCbc(aes, key, encrypted);
    if d.None? then None else DecodedAttrs(CString(FromBytes(d.value)))
  }

  /** `decrypt_node_attrs` */
  method DecryptNodeAttrs(aes: Aes.Cipher, encrypted: string, key: Aes.Block) returns (r: Option<Option<string>>)
    ensures r == DecryptedAttrs(aes, encrypted, key)
  {
    var attrs := Aes.DecryptCbc(aes, key, encrypted);
    if attrs.None? {
      return None;
    }
    r := DecodeNodeAttrs(CString(FromBytes(attrs.value)));
  }

  lemma MegaPrefix(text: string)
    requires text != "" && text[0] == '{'
    ensures "MEGA{" <= "MEGA" + text && ("MEGA" + text)[4..] == text
  {
    assert ("MEGA" + text)[..5] == "MEGA{";
  }

  /** Decoding the attributes of a name gives the name. */
  lemma AttrsRoundTrip(name: string)
    requires NulFree(name)
    ensures DecodedAttrs(Attrs(name)) == Some(Some(name))
  {
    var fields := NameFields(name);
    var text := Text(JObject(fields));
    var attrs := Attrs(name);
    FinishedText(JObject(fields));
    ObjectStarts(fields, text);
    FieldString(text, 0, fields, |text|, "n");
    assert FieldValue(fields, "n") == Some(JString(name));
    MegaPrefix(text);
  }

  /** A name that is encoded, encrypted and decrypted with the same key comes back, for every C string and whatever
      stands in memory behind the text. */
  lemma NodeNameRoundTrip(aes: Aes.Cipher, key: Aes.Block, name: string, after: Aes.Memory)
    requires Aes.Lawful(aes) && CText(name)
    ensures NulFree(name) && CText(Attrs(name))
    ensures DecryptedAttrs(aes, Aes.EncryptString(aes, key, ToBytes(Attrs(name)), after), key) == Some(Some(name))
  {
    TextIsCText(JObject(NameFields(name)));
    DecryptedText(aes, key, Attrs(name), after);
    AttrsRoundTrip(name);
  }

  /** The same through the C functions */
  method EncryptThenDecrypt(aes: Aes.Cipher, key: Aes.Block, name: string, after: Aes.Memory)
    returns (r: Option<Option<string>>)
    requires Aes.Lawful(aes) && CText(name)
    ensures r == Some(Some(name))
  {
    CStringOfNulFree(name);
    NodeNameRoundTrip(aes, key, name, after);
    var attrs := EncodeNodeAttrs(name);
    var encrypted := Aes.EncryptString(aes, key, ToBytes(attrs), after);
    r := DecryptNodeAttrs(aes, encrypted, key);
  }
}
