/**
 * What the credential id seals, by the map keys and names of the firmware's format: which key holds which
 * field of the credential, and which are left out.
 */
module SealedFields {
  import opened Bytes
  import opened Cbor
  import opened SealedCredential

  /** The value of a key in a map. */
  function Under(fs: seq<Field>, key: Item): Option<Item>
    decreases |fs|
  {
    if fs == [] then None else if fs[0].key == key then Some(fs[0].value) else Under(fs[1..], key)
  }

  lemma {:induction false} UnderConcat(a: seq<Field>, b: seq<Field>, key: Item)
    ensures Under(a + b, key) == if Under(a, key).Some? then Under(a, key) else Under(b, key)
    decreases |a|
  {
    if a == [] {
      assert a + b == b;
    } else {
      assert (a + b)[1..] == a[1..] + b;
      UnderConcat(a[1..], b, key);
    }
  }

  /** A field that is left out when empty. */
  function Unless(absent: bool, it: Item): Option<Item> {
    if absent then None else Some(it)
  }

  predicate HoldsExtensions(fs: seq<Field>, e: Extensions) {
    && Under(fs, Text(Ascii("credBlob"))) == (match e.credBlob
        case None => None
        case Some(b) => Unless(|b| >= 128, Blob(b)))
    && Under(fs, Text(Ascii("credProtect"))) == Unless(e.credProtect == 0, UInt(e.credProtect))
    && Under(fs, Text(Ascii("hmac-secret"))) == (match e.hmacSecret case None => None case Some(b) => Some(Bool(b)))
    && Under(fs, Text(Ascii("largeBlobKey"))) == Unless(e.largeBlobKey != Some(true), Bool(true))
    && Under(fs, Text(Ascii("thirdPartyPayment"))) == Unless(e.thirdPartyPayment != Some(true), Bool(true))
  }

  /** Keys 1 to 5: the RP id and its hash, the user id and the two names. */
  predicate HoldsNames(fs: seq<Field>, d: Draft, rpHash: Hash) {
    && Under(fs, UInt(1)) == Unless(d.rpId == [], Text(CString(d.rpId)))
    && Under(fs, UInt(2)) == Some(Blob(rpHash))
    && Under(fs, UInt(3)) == Unless(d.userId == [], Blob(d.userId))
    && Under(fs, UInt(4)) == Unless(d.userName == [], Text(CString(d.userName)))
    && Under(fs, UInt(5)) == Unless(d.displayName == [], Text(CString(d.displayName)))
  }

  /** Keys 6 to 11: the time, extensions, the sign-count option, algorithm and curve, and options. */
  predicate HoldsDetails(fs: seq<Field>, d: Draft, now: nat) {
    && Under(fs, UInt(6)) == Some(UInt(now))
    && (match d.extensions
        case None => Under(fs, UInt(7)) == None
        case Some(e) =>
          var m := Under(fs, UInt(7));
          m.Some? && m.value.Map? && HoldsExtensions(m.value.fields, e))
    && Under(fs, UInt(8)) == Some(Bool(d.useSignCount))
    && Under(fs, UInt(9)) == Unless(d.alg == -7 && d.curve == 1, Integer(d.alg))
    && Under(fs, UInt(10)) == Unless(d.alg == -7 && d.curve == 1, Integer(d.curve))
    && Under(fs, UInt(11)) == (match d.options
        case None => None
        case Some(None) => Some(Map([]))
        case Some(Some(rk)) => Some(Map([Field(Text(Ascii("rk")), Bool(rk))])))
  }

  lemma ExtensionNamesDiffer()
    ensures Ascii("credBlob") != Ascii("credProtect") && Ascii("credProtect") != Ascii("hmac-secret")
    ensures |Ascii("credBlob")| == 8 && |Ascii("credProtect")| == 11 && |Ascii("hmac-secret")| == 11
    ensures |Ascii("largeBlobKey")| == 12 && |Ascii("thirdPartyPayment")| == 17
  {
    assert Ascii("credProtect")[0] != Ascii("hmac-secret")[0];
  }

  function Or(a: Option<Item>, b: Option<Item>): Option<Item> {
    if a.Some? then a else b
  }

  /** The value in a map of at most one field. */
  function Only(fs: seq<Field>, key: Item): Option<Item> {
    if fs != [] && fs[0].key == key then Some(fs[0].value) else None
  }

  lemma UnderOnly(fs: seq<Field>, key: Item)
    requires |fs| <= 1
    ensures Under(fs, key) == Only(fs, key)
  {
    if fs != [] {
      assert fs[1..] == [];
    }
  }

  /** The value in a map that consists of five of at most one field. */
  function OnlyFive(a: seq<Field>, b: seq<Field>, c: seq<Field>, d: seq<Field>, e: seq<Field>,
                    key: Item): Option<Item> {
    Or(Or(Or(Or(Only(a, key), Only(b, key)), Only(c, key)), Only(d, key)), Only(e, key))
  }

  lemma UnderFive(a: seq<Field>, b: seq<Field>, c: seq<Field>, d: seq<Field>, e: seq<Field>, key: Item)
    requires |a| <= 1 && |b| <= 1 && |c| <= 1 && |d| <= 1 && |e| <= 1
    ensures Under(a + b + c + d + e, key) == OnlyFive(a, b, c, d, e, key)
  {
    UnderConcat(a, b, key);
    UnderConcat(a + b, c, key);
    UnderConcat(a + b + c, d, key);
    UnderConcat(a + b + c + d, e, key);
    UnderOnly(a, key);
    UnderOnly(b, key);
    UnderOnly(c, key);
    UnderOnly(d, key);
    UnderOnly(e, key);
  }

  lemma ExtensionsUnder(e: Extensions, key: Item)
    ensures Under(ExtensionFields(e), key) == OnlyFive(
      if e.credBlob.Some? && |e.credBlob.value| < MAX_CREDBLOB then
        [Field(Text(CRED_BLOB), Blob(e.credBlob.value))] else [],
      if e.credProtect != 0 then [Field(Text(CRED_PROTECT), UInt(e.credProtect))] else [],
      if e.hmacSecret.Some? then [Field(Text(HMAC_SECRET), Bool(e.hmacSecret.value))] else [],
      if e.largeBlobKey == Some(true) then [Field(Text(LARGE_BLOB_KEY), Bool(true))] else [],
      if e.thirdPartyPayment == Some(true) then [Field(Text(THIRD_PARTY_PAYMENT), Bool(true))] else [], key)
  {
    UnderFive(
      if e.credBlob.Some? && |e.credBlob.value| < MAX_CREDBLOB then
        [Field(Text(CRED_BLOB), Blob(e.credBlob.value))] else [],
      if e.credProtect != 0 then [Field(Text(CRED_PROTECT), UInt(e.credProtect))] else [],
      if e.hmacSecret.Some? then [Field(Text(HMAC_SECRET), Bool(e.hmacSecret.value))] else [],
      if e.largeBlobKey == Some(true) then [Field(Text(LARGE_BLOB_KEY), Bool(true))] else [],
      if e.thirdPartyPayment == Some(true) then [Field(Text(THIRD_PARTY_PAYMENT), Bool(true))] else [], key);
  }

  lemma ExtensionsHeld(e: Extensions)
    ensures HoldsExtensions(ExtensionFields(e), e)
  {
    ExtensionNamesDiffer();
    ExtensionsUnder(e, Text(Ascii("credBlob")));
    ExtensionsUnder(e, Text(Ascii("credProtect")));
    ExtensionsUnder(e, Text(Ascii("hmac-secret")));
    ExtensionsUnder(e, Text(Ascii("largeBlobKey")));
    ExtensionsUnder(e, Text(Ascii("thirdPartyPayment")));
  }

  lemma NamesUnder(d: Draft, rpHash: Hash, k: nat)
    ensures Under(NameFields(d, rpHash), UInt(k))
      == match k
         case 1 => Unless(d.rpId == [], Text(CString(d.rpId)))
         case 2 => Some(Blob(rpHash))
         case 3 => Unless(d.userId == [], Blob(d.userId))
         case 4 => Unless(d.userName == [], Text(CString(d.userName)))
         case 5 => Unless(d.displayName == [], Text(CString(d.displayName)))
         case _ => None
  {
    UnderFive(TextField(1, d.rpId), [Field(UInt(2), Blob(rpHash))], BlobField(3, d.userId),
              TextField(4, d.userName), TextField(5, d.displayName), UInt(k));
  }

  lemma AlgorithmUnder(d: Draft, before: seq<Field>, k: nat)
    ensures var fs := if d.alg != ES256 || d.curve != P256 then
        [Field(UInt(9), Integer(d.alg)), Field(UInt(0x0A), Integer(d.curve))] else [];
      Under(before + fs, UInt(k)) == Or(Under(before, UInt(k)),
        if k == 9 then Unless(d.alg == -7 && d.curve == 1, Integer(d.alg))
        else if k == 10 then Unless(d.alg == -7 && d.curve == 1, Integer(d.curve)) else None)
  {
    var fs := if d.alg != ES256 || d.curve != P256 then
      [Field(UInt(9), Integer(d.alg)), Field(UInt(0x0A), Integer(d.curve))] else [];
    UnderConcat(before, fs, UInt(k));
    if fs != [] {
      assert fs[1..] == [fs[1]];
      UnderOnly(fs[1..], UInt(k));
    }
  }

  lemma DetailsUnder(d: Draft, now: nat, k: nat)
    ensures Under(DetailFields(d, now), UInt(k))
      == match k
         case 6 => Some(UInt(now))
         case 7 => if d.extensions.Some? then Some(Map(ExtensionFields(d.extensions.value))) else None
         case 8 => Some(Bool(d.useSignCount))
         case 9 => Unless(d.alg == -7 && d.curve == 1, Integer(d.alg))
         case 10 => Unless(d.alg == -7 && d.curve == 1, Integer(d.curve))
         case 11 => if d.options.Some? then Some(OptionsField(d.options)[0].value) else None
         case _ => None
  {
    var three := [Field(UInt(6), UInt(now))] + ExtensionsField(d.extensions) + [Field(UInt(8), Bool(d.useSignCount))];
    UnderFive([Field(UInt(6), UInt(now))], ExtensionsField(d.extensions), [Field(UInt(8), Bool(d.useSignCount))],
              [], [], UInt(k));
    assert three + [] + [] == three;
    AlgorithmUnder(d, three, k);
    var algorithm := if d.alg != ES256 || d.curve != P256 then
      [Field(UInt(9), Integer(d.alg)), Field(UInt(0x0A), Integer(d.curve))] else [];
    UnderConcat(three + algorithm, OptionsField(d.options), UInt(k));
    UnderOnly(OptionsField(d.options), UInt(k));
  }

  /** What each key of the sealed map holds. */
  lemma FieldUnder(d: Draft, rpHash: Hash, now: nat, k: nat)
    ensures Under(NameFields(d, rpHash) + DetailFields(d, now), UInt(k))
      == match k
         case 1 => Unless(d.rpId == [], Text(CString(d.rpId)))
         case 2 => Some(Blob(rpHash))
         case 3 => Unless(d.userId == [], Blob(d.userId))
         case 4 => Unless(d.userName == [], Text(CString(d.userName)))
         case 5 => Unless(d.displayName == [], Text(CString(d.displayName)))
         case 6 => Some(UInt(now))
         case 7 => if d.extensions.Some? then Some(Map(ExtensionFields(d.extensions.value))) else None
         case 8 => Some(Bool(d.useSignCount))
         case 9 => Unless(d.alg == -7 && d.curve == 1, Integer(d.alg))
         case 10 => Unless(d.alg == -7 && d.curve == 1, Integer(d.curve))
         case 11 => if d.options.Some? then Some(OptionsField(d.options)[0].value) else None
         case _ => None
  {
    UnderConcat(NameFields(d, rpHash), DetailFields(d, now), UInt(k));
    NamesUnder(d, rpHash, k);
    DetailsUnder(d, now, k);
  }

  lemma FieldsHeld(d: Draft, rpHash: Hash, now: nat)
    ensures var fs := NameFields(d, rpHash) + DetailFields(d, now);
      HoldsNames(fs, d, rpHash) && HoldsDetails(fs, d, now)
  {
    FieldUnder(d, rpHash, now, 1);
    FieldUnder(d, rpHash, now, 2);
    FieldUnder(d, rpHash, now, 3);
    FieldUnder(d, rpHash, now, 4);
    FieldUnder(d, rpHash, now, 5);
    FieldUnder(d, rpHash, now, 6);
    FieldUnder(d, rpHash, now, 7);
    FieldUnder(d, rpHash, now, 8);
    FieldUnder(d, rpHash, now, 9);
    FieldUnder(d, rpHash, now, 10);
    FieldUnder(d, rpHash, now, 11);
    if d.extensions.Some? {
      ExtensionsHeld(d.extensions.value);
    }
  }

  /**
   * The credential id: a fixed prefix, the IV, and the box of a map that holds the draft's fields under
   * their keys, sealed under the hash of its RP id.
   */
  lemma CreatedHolds(v: Vault, d: Draft, now: nat, iv: bytes, tail: bytes)
    returns (plain: bytes, fs: seq<Field>)
    requires v.Lawful() && d.Typed() && now < 0x1_0000_0000 && |iv| == 12 && |tail| == 16
    requires Create(v, d, now, iv, tail).Ok?
    ensures var box := v.seal(iv, v.sha256(d.rpId), plain);
      Create(v, d, now, iv, tail).value == [0xF1, 0xD0, 0x02, 0x01] + iv + box.cipher + box.tag
    ensures Parse(plain) == Read(Map(fs), tail)
    ensures HoldsNames(fs, d, v.sha256(d.rpId)) && HoldsDetails(fs, d, now)
  {
    var h := v.sha256(d.rpId);
    fs := NameFields(d, h) + DetailFields(d, now);
    plain := Plain(d, h, now) + tail;
    NamesEncodable(d, h);
    DetailsEncodable(d, now);
    assert EncodableFields(fs);
    RoundTrip(Map(fs), tail);
    FieldsHeld(d, h, now);
  }
}
