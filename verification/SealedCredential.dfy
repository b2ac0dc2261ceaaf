/**
 * The credential id: a CBOR map of the credential's fields, sealed under the device's
 * ChaCha20-Poly1305 key with the RP id hash as associated data (section 2.8 of RFC 8439).
 */
module SealedCredential {
  import opened Bytes
  import opened Cbor

  const PROTO: bytes := [0xF1, 0xD0, 0x02, 0x01]
  const ES256: int := -7
  const P256: int := 1
  const MAX_CREDBLOB: nat := 128
  const MAX_CRED_ID: nat := 1024
  const KEY_HANDLE: nat := 64
  const OUT_OF_MEMORY: Status := Other(0x8000_0000)

  /** A ciphertext and its 16-byte tag. */
  datatype Box = Box(cipher: bytes, tag: bytes)

  /**
   * The cryptography that the credential id rests on, as functions of its inputs:
   * AEAD under the device key, SHA-256, and the check of a U2F key handle.
   */
  datatype Vault = Vault(
    seal: (bytes, bytes, bytes) -> Box,
    open: (bytes, bytes, Box) -> Option<bytes>,
    sha256: bytes -> Hash,
    ownHandle: (bytes, bytes) -> bool
  )
  {
    /** Opening undoes sealing; sealing keeps the length and adds a 16-byte tag. */
    ghost predicate Lawful() {
      forall iv, aad, plain ::
        var box := seal(iv, aad, plain);
        && |box.cipher| == |plain|
        && |box.tag| == 16
        && open(iv, aad, box) == Some(plain)
    }
  }

  /** `hmacSecret`, `largeBlobKey` and `thirdPartyPayment` may be missing, false or true. */
  datatype Extensions = Extensions(
    hmacSecret: Option<bool>,
    credProtect: nat,
    credBlob: Option<bytes>,
    largeBlobKey: Option<bool>,
    thirdPartyPayment: Option<bool>)

  const NO_EXTENSIONS := Extensions(None, 0, None, None, None)

  /** What `credential_create` is given. Empty strings stand for missing ones; `rk` is the options map. */
  datatype Draft = Draft(
    rpId: bytes,
    userId: bytes,
    userName: bytes,
    displayName: bytes,
    extensions: Option<Extensions>,
    useSignCount: bool,
    alg: int,
    curve: int,
    options: Option<Option<bool>>)
  {
    /** The widths of the C types that hold these values. */
    predicate Typed() {
      && |rpId| < UINT64 && |userId| < UINT64 && |userName| < UINT64 && |displayName| < UINT64
      && -0x8000_0000 <= alg < 0x8000_0000
      && -0x8000_0000 <= curve < 0x8000_0000
      && (extensions.Some? ==> extensions.value.credProtect < UINT64)
    }
  }

  /** What `credential_load` fills in. */
  datatype Credential = Credential(
    rpId: Option<bytes>,
    userId: Option<bytes>,
    userName: Option<bytes>,
    displayName: Option<bytes>,
    creation: nat,
    extensions: Option<Extensions>,
    useSignCount: Option<bool>,
    alg: int,
    curve: int,
    options: Option<Option<bool>>,
    id: bytes)
  {
    /** The bytes of the user id; a missing one compares like an empty one. */
    function UserId(): bytes {
      if userId.Some? then userId.value else []
    }

    function RpId(): bytes {
      if rpId.Some? then rpId.value else []
    }
  }

  const BLANK := Credential(None, None, None, None, 0, None, None, ES256, P256, None, [])
  const ZEROED := BLANK.(alg := 0, curve := 0)

  function Ascii(s: string): bytes {
    seq(|s|, i requires 0 <= i < |s| => (s[i] as int) % 256)
  }

  const CRED_BLOB: bytes := Ascii("credBlob")
  const CRED_PROTECT: bytes := Ascii("credProtect")
  const HMAC_SECRET: bytes := Ascii("hmac-secret")
  const LARGE_BLOB_KEY: bytes := Ascii("largeBlobKey")
  const THIRD_PARTY_PAYMENT: bytes := Ascii("thirdPartyPayment")
  const RK: bytes := Ascii("rk")

  /** The C string at the start of t: everything before the first NUL. */
  function CString(t: bytes): (r: bytes)
    ensures |r| <= |t|
    ensures 0 !in t ==> r == t
  {
    if t == [] || t[0] == 0 then [] else [t[0]] + CString(t[1..])
  }

  function Integer(i: int): Item {
    if i >= 0 then UInt(i) else NegInt(-1 - i)
  }

  // ---------- the sealed fields, in the order they are written ----------

  function TextField(k: nat, t: bytes): seq<Field> {
    if t == [] then [] else [Field(UInt(k), Text(CString(t)))]
  }

  function BlobField(k: nat, b: bytes): seq<Field> {
    if b == [] then [] else [Field(UInt(k), Blob(b))]
  }

  function ExtensionFields(e: Extensions): seq<Field> {
    (if e.credBlob.Some? && |e.credBlob.value| < MAX_CREDBLOB then
       [Field(Text(CRED_BLOB), Blob(e.credBlob.value))] else [])
    + (if e.credProtect != 0 then [Field(Text(CRED_PROTECT), UInt(e.credProtect))] else [])
    + (if e.hmacSecret.Some? then [Field(Text(HMAC_SECRET), Bool(e.hmacSecret.value))] else [])
    + (if e.largeBlobKey == Some(true) then [Field(Text(LARGE_BLOB_KEY), Bool(true))] else [])
    + (if e.thirdPartyPayment == Some(true) then [Field(Text(THIRD_PARTY_PAYMENT), Bool(true))] else [])
  }

  function ExtensionsField(e: Option<Extensions>): seq<Field> {
    if e.Some? then [Field(UInt(7), Map(ExtensionFields(e.value)))] else []
  }

  function OptionsField(o: Option<Option<bool>>): seq<Field> {
    match o
    case None => []
    case Some(rk) =>
      [Field(UInt(0x0B), Map(if rk.Some? then [Field(Text(RK), Bool(rk.value))] else []))]
  }

  /** The identity of the RP and of the user. */
  function NameFields(d: Draft, rpHash: Hash): seq<Field> {
    TextField(1, d.rpId) + [Field(UInt(2), Blob(rpHash))] + BlobField(3, d.userId)
    + TextField(4, d.userName) + TextField(5, d.displayName)
  }

  /** Everything from the creation time on. */
  function DetailFields(d: Draft, now: nat): seq<Field> {
    [Field(UInt(6), UInt(now))]
    + ExtensionsField(d.extensions)
    + [Field(UInt(8), Bool(d.useSignCount))]
    + (if d.alg != ES256 || d.curve != P256 then
         [Field(UInt(9), Integer(d.alg)), Field(UInt(0x0A), Integer(d.curve))] else [])
    + OptionsField(d.options)
  }

  function Plain(d: Draft, rpHash: Hash, now: nat): bytes {
    Encode(Map(NameFields(d, rpHash) + DetailFields(d, now)))
  }

  /**
   * The credential id built from a draft. The plaintext length is taken from the start of the
   * output buffer, 16 bytes early, so 16 bytes that follow the CBOR map are sealed with it.
   */
  function Create(v: Vault, d: Draft, now: nat, iv: bytes, tail: bytes): Result<bytes> {
    var rpHash := v.sha256(d.rpId);
    var plain := Plain(d, rpHash, now);
    if |plain| > MAX_CRED_ID - 32 then Err(OUT_OF_MEMORY)
    else
      var box := v.seal(iv, rpHash, plain + tail);
      Ok(PROTO + iv + box.cipher + box.tag)
  }

  /** The credential id fits the buffer of `credential_create`'s callers, both of MAX_CRED_ID bytes. */
  predicate Fits(v: Vault, d: Draft, now: nat) {
    |Plain(d, v.sha256(d.rpId), now)| <= MAX_CRED_ID - 48
  }

  /** `credential_create`, appending to the map as it goes: what it makes loads again. */
  method CreateCredential(v: Vault, d: Draft, now: nat, iv: bytes, tail: bytes) returns (r: Result<bytes>)
    requires |iv| == 12 && |tail| == 16
    ensures r == Create(v, d, now, iv, tail)
    ensures v.Lawful() && d.Typed() && now < 0x1_0000_0000 && Fits(v, d, now) ==>
      r.Ok? && |r.value| <= MAX_CRED_ID && Load(v, r.value, v.sha256(d.rpId)) == Ok(Normal(d, now, r.value))
  {
    if v.Lawful() && d.Typed() && now < 0x1_0000_0000 && Fits(v, d, now) {
      LoadCreated(v, d, now, iv, tail);
    }
    var rpHash := v.sha256(d.rpId);
    var names := TextField(1, d.rpId);
    names := names + [Field(UInt(2), Blob(rpHash))];
    names := names + BlobField(3, d.userId);
    names := names + TextField(4, d.userName);
    names := names + TextField(5, d.displayName);
    var details := [Field(UInt(6), UInt(now))];
    if d.extensions.Some? {
      details := details + [Field(UInt(7), Map(ExtensionFields(d.extensions.value)))];
    }
    details := details + [Field(UInt(8), Bool(d.useSignCount))];
    if d.alg != ES256 || d.curve != P256 {
      details := details + [Field(UInt(9), Integer(d.alg)), Field(UInt(0x0A), Integer(d.curve))];
    }
    details := details + OptionsField(d.options);
    assert details == DetailFields(d, now);
    var plain := Encode(Map(names + details));
    if |plain| > MAX_CRED_ID - 32 {
      return Err(OUT_OF_MEMORY);
    }
    var box := v.seal(iv, rpHash, plain + tail);
    return Ok(PROTO + iv + box.cipher + box.tag);
  }

  // ---------- loading ----------

  function ReadInteger(it: Item): (r: Result<int>)
    ensures r.Err? ==> r.error == UnexpectedType
  {
    match it
    case UInt(n) => Ok(n)
    case NegInt(n) => Ok(-1 - n)
    case _ => Err(UnexpectedType)
  }

  /** One entry of the extensions map; an unknown name is skipped. */
  function ReadExtension(e: Extensions, f: Field): (r: Result<Extensions>)
    ensures r.Err? ==> r.error == UnexpectedType
  {
    if !f.key.Text? then Err(UnexpectedType)
    else if f.key.text == HMAC_SECRET then
      if f.value.Bool? then Ok(e.(hmacSecret := Some(f.value.v))) else Err(UnexpectedType)
    else if f.key.text == CRED_PROTECT then
      if f.value.UInt? then Ok(e.(credProtect := f.value.n)) else Err(UnexpectedType)
    else if f.key.text == CRED_BLOB then
      if f.value.Blob? then Ok(e.(credBlob := Some(f.value.data))) else Err(UnexpectedType)
    else if f.key.text == LARGE_BLOB_KEY then
      if f.value.Bool? then Ok(e.(largeBlobKey := Some(f.value.v))) else Err(UnexpectedType)
    else if f.key.text == THIRD_PARTY_PAYMENT then
      if f.value.Bool? then Ok(e.(thirdPartyPayment := Some(f.value.v))) else Err(UnexpectedType)
    else Ok(e)
  }

  function ReadExtensions(e: Extensions, fs: seq<Field>): (r: Result<Extensions>)
    ensures r.Err? ==> r.error == UnexpectedType
    decreases |fs|
  {
    if fs == [] then Ok(e)
    else
      var e' :- ReadExtension(e, fs[0]);
      ReadExtensions(e', fs[1..])
  }

  function ReadOption(rk: Option<bool>, f: Field): (r: Result<Option<bool>>)
    ensures r.Err? ==> r.error == UnexpectedType
  {
    if !f.key.Text? then Err(UnexpectedType)
    else if f.key.text == RK then
      if f.value.Bool? then Ok(Some(f.value.v)) else Err(UnexpectedType)
    else Ok(rk)
  }

  function ReadOptions(rk: Option<bool>, fs: seq<Field>): (r: Result<Option<bool>>)
    ensures r.Err? ==> r.error == UnexpectedType
    decreases |fs|
  {
    if fs == [] then Ok(rk)
    else
      var rk' :- ReadOption(rk, fs[0]);
      ReadOptions(rk', fs[1..])
  }

  /** One entry of the sealed map. */
  function ReadField(c: Credential, f: Field): (r: Result<Credential>)
    ensures r.Err? ==> r.error == UnexpectedType
  {
    if !f.key.UInt? then Err(UnexpectedType)
    else
      match f.key.n
      case 1 => if f.value.Text? then Ok(c.(rpId := Some(f.value.text))) else Err(UnexpectedType)
      case 3 => if f.value.Blob? then Ok(c.(userId := Some(f.value.data))) else Err(UnexpectedType)
      case 4 => if f.value.Text? then Ok(c.(userName := Some(f.value.text))) else Err(UnexpectedType)
      case 5 => if f.value.Text? then Ok(c.(displayName := Some(f.value.text))) else Err(UnexpectedType)
      case 6 => if f.value.UInt? then Ok(c.(creation := f.value.n)) else Err(UnexpectedType)
      case 7 =>
        if !f.value.Map? then Err(UnexpectedType)
        else
          var e :- ReadExtensions(if c.extensions.Some? then c.extensions.value else NO_EXTENSIONS, f.value.fields);
          Ok(c.(extensions := Some(e)))
      case 8 => if f.value.Bool? then Ok(c.(useSignCount := Some(f.value.v))) else Err(UnexpectedType)
      case 9 => var i :- ReadInteger(f.value); Ok(c.(alg := i))
      case 10 => var i :- ReadInteger(f.value); Ok(c.(curve := i))
      case 11 =>
        if !f.value.Map? then Err(UnexpectedType)
        else
          var rk :- ReadOptions(if c.options.Some? then c.options.value else None, f.value.fields);
          Ok(c.(options := Some(rk)))
      case _ => Ok(c)
  }

  function ReadFields(c: Credential, fs: seq<Field>): (r: Result<Credential>)
    ensures r.Err? ==> r.error == UnexpectedType
    decreases |fs|
  {
    if fs == [] then Ok(c)
    else
      var c' :- ReadField(c, fs[0]);
      ReadFields(c', fs[1..])
  }

  /** The plaintext of a credential id, when it opens under this RP id hash. */
  function Verify(v: Vault, id: bytes, rpHash: Hash): Option<bytes> {
    if |id| < 32 then None
    else v.open(id[4..16], rpHash, Box(id[16..|id| - 16], id[|id| - 16..]))
  }

  function Load(v: Vault, id: bytes, rpHash: Hash): (r: Result<Credential>)
    ensures r.Err? ==> r.error in {InvalidCredential, BadCbor, UnexpectedType}
    ensures r.Ok? ==> r.value.id == id
  {
    match Verify(v, id, rpHash)
    case None =>
      if |id| != KEY_HANDLE || !v.ownHandle(rpHash, id) then Err(InvalidCredential) else Ok(ZEROED.(id := id))
    case Some(plain) =>
      match Parse(plain)
      case Malformed => Err(BadCbor)
      case Read(it, _) =>
        if !it.Map? then Err(UnexpectedType)
        else
          var c :- ReadFields(BLANK, it.fields);
          Ok(c.(id := id))
  }

  /** `credential_load`, one map entry at a time. */
  method LoadCredential(v: Vault, id: bytes, rpHash: Hash) returns (r: Result<Credential>)
    ensures r == Load(v, id, rpHash)
  {
    var plain := Verify(v, id, rpHash);
    if plain.None? {
      if |id| != KEY_HANDLE || !v.ownHandle(rpHash, id) {
        return Err(InvalidCredential);
      }
      return Ok(ZEROED.(id := id));
    }
    var p := Parse(plain.value);
    if p.Malformed? {
      return Err(BadCbor);
    }
    if !p.value.Map? {
      return Err(UnexpectedType);
    }
    var fs := p.value.fields;
    var c := BLANK;
    var i := 0;
    while i < |fs|
      invariant 0 <= i <= |fs|
      invariant ReadFields(c, fs[i..]) == ReadFields(BLANK, fs)
    {
      assert fs[i..][0] == fs[i] && fs[i..][1..] == fs[i + 1..];
      c :- ReadField(c, fs[i]);
      i := i + 1;
    }
    return Ok(c.(id := id));
  }

  // ---------- loading undoes creating ----------

  function Present(b: bytes): Option<bytes> {
    if b == [] then None else Some(b)
  }

  function PresentText(t: bytes): Option<bytes> {
    if t == [] then None else Some(CString(t))
  }

  /** What survives of the extensions: a long credBlob and false-valued optional keys are dropped. */
  function NormalExtensions(e: Extensions): Extensions {
    Extensions(
      e.hmacSecret,
      e.credProtect,
      if e.credBlob.Some? && |e.credBlob.value| < MAX_CREDBLOB then e.credBlob else None,
      if e.largeBlobKey == Some(true) then Some(true) else None,
      if e.thirdPartyPayment == Some(true) then Some(true) else None)
  }

  /** The credential that a draft stands for. */
  function Normal(d: Draft, now: nat, id: bytes): Credential {
    Credential(
      PresentText(d.rpId), Present(d.userId), PresentText(d.userName), PresentText(d.displayName), now,
      if d.extensions.Some? then Some(NormalExtensions(d.extensions.value)) else None,
      Some(d.useSignCount), d.alg, d.curve, d.options, id)
  }

  lemma {:induction false} ReadFieldsAppend(c: Credential, a: seq<Field>, b: seq<Field>)
    requires ReadFields(c, a).Ok?
    ensures ReadFields(c, a + b) == ReadFields(ReadFields(c, a).value, b)
    decreases |a|
  {
    if a == [] {
      assert a + b == b;
    } else {
      var c' := ReadField(c, a[0]).value;
      ReadFieldsAppend(c', a[1..], b);
      assert (a + b)[1..] == a[1..] + b;
    }
  }

  lemma {:induction false} ReadExtensionsAppend(e: Extensions, a: seq<Field>, b: seq<Field>)
    requires ReadExtensions(e, a).Ok?
    ensures ReadExtensions(e, a + b) == ReadExtensions(ReadExtensions(e, a).value, b)
    decreases |a|
  {
    if a == [] {
      assert a + b == b;
    } else {
      var e' := ReadExtension(e, a[0]).value;
      ReadExtensionsAppend(e', a[1..], b);
      assert (a + b)[1..] == a[1..] + b;
    }
  }

  lemma ReadOneField(c: Credential, f: Field)
    ensures ReadFields(c, [f]) == ReadField(c, f)
  {
    assert [f][1..] == [];
  }

  lemma ReadOneExtension(e: Extensions, f: Field)
    ensures ReadExtensions(e, [f]) == ReadExtension(e, f)
  {
    assert [f][1..] == [];
  }

  /** A list that reads to `mid`, extended by at most one field that `mid` accepts. */
  lemma ReadNext(c: Credential, a: seq<Field>, b: seq<Field>, mid: Credential)
    requires |b| <= 1
    requires ReadFields(c, a) == Ok(mid)
    ensures ReadFields(c, a + b) == if b == [] then Ok(mid) else ReadField(mid, b[0])
  {
    ReadFieldsAppend(c, a, b);
    if b != [] {
      assert b == [b[0]];
      ReadOneField(mid, b[0]);
    }
  }

  lemma ReadNextExtension(e: Extensions, a: seq<Field>, b: seq<Field>, mid: Extensions)
    requires |b| <= 1
    requires ReadExtensions(e, a) == Ok(mid)
    ensures ReadExtensions(e, a + b) == if b == [] then Ok(mid) else ReadExtension(mid, b[0])
  {
    ReadExtensionsAppend(e, a, b);
    if b != [] {
      assert b == [b[0]];
      ReadOneExtension(mid, b[0]);
    }
  }

  /** The five extension names tell each other apart. */
  lemma ExtensionNames()
    ensures |CRED_BLOB| == 8 && |CRED_PROTECT| == 11 && |HMAC_SECRET| == 11
    ensures |LARGE_BLOB_KEY| == 12 && |THIRD_PARTY_PAYMENT| == 17
    ensures CRED_PROTECT != HMAC_SECRET
  {
    assert CRED_PROTECT[0] == 99 && HMAC_SECRET[0] == 104;
  }

  lemma ExtensionsRoundTrip(e: Extensions)
    ensures ReadExtensions(NO_EXTENSIONS, ExtensionFields(e)) == Ok(NormalExtensions(e))
  {
    ExtensionNames();
    var n := NormalExtensions(e);
    var f1 := if e.credBlob.Some? && |e.credBlob.value| < MAX_CREDBLOB then
                [Field(Text(CRED_BLOB), Blob(e.credBlob.value))] else [];
    var f2 := if e.credProtect != 0 then [Field(Text(CRED_PROTECT), UInt(e.credProtect))] else [];
    var f3 := if e.hmacSecret.Some? then [Field(Text(HMAC_SECRET), Bool(e.hmacSecret.value))] else [];
    var f4 := if e.largeBlobKey == Some(true) then [Field(Text(LARGE_BLOB_KEY), Bool(true))] else [];
    var f5 := if e.thirdPartyPayment == Some(true) then
                [Field(Text(THIRD_PARTY_PAYMENT), Bool(true))] else [];
    var e1 := NO_EXTENSIONS.(credBlob := n.credBlob);
    var e2 := e1.(credProtect := n.credProtect);
    var e3 := e2.(hmacSecret := n.hmacSecret);
    var e4 := e3.(largeBlobKey := n.largeBlobKey);
    assert [] + f1 == f1;
    ReadNextExtension(NO_EXTENSIONS, [], f1, NO_EXTENSIONS);
    ReadNextExtension(NO_EXTENSIONS, f1, f2, e1);
    ReadNextExtension(NO_EXTENSIONS, f1 + f2, f3, e2);
    ReadNextExtension(NO_EXTENSIONS, f1 + f2 + f3, f4, e3);
    ReadNextExtension(NO_EXTENSIONS, f1 + f2 + f3 + f4, f5, e4);
  }

  /** After the names: the identity fields are in place, the rest is still blank. */
  function Named(d: Draft): Credential {
    BLANK.(rpId := PresentText(d.rpId), userId := Present(d.userId),
           userName := PresentText(d.userName), displayName := PresentText(d.displayName))
  }

  lemma IdentityRoundTrip(d: Draft, rpHash: Hash)
    ensures ReadFields(BLANK, TextField(1, d.rpId) + [Field(UInt(2), Blob(rpHash))] + BlobField(3, d.userId))
         == Ok(BLANK.(rpId := PresentText(d.rpId), userId := Present(d.userId)))
  {
    var f1 := TextField(1, d.rpId);
    var f2 := [Field(UInt(2), Blob(rpHash))];
    var c1 := BLANK.(rpId := PresentText(d.rpId));
    assert [] + f1 == f1;
    ReadNext(BLANK, [], f1, BLANK);
    ReadNext(BLANK, f1, f2, c1);
    ReadNext(BLANK, f1 + f2, BlobField(3, d.userId), c1);
  }

  lemma NamesRoundTrip(d: Draft, rpHash: Hash)
    ensures ReadFields(BLANK, NameFields(d, rpHash)) == Ok(Named(d))
  {
    var f := TextField(1, d.rpId) + [Field(UInt(2), Blob(rpHash))] + BlobField(3, d.userId);
    var c := BLANK.(rpId := PresentText(d.rpId), userId := Present(d.userId));
    IdentityRoundTrip(d, rpHash);
    ReadNext(BLANK, f, TextField(4, d.userName), c);
    ReadNext(BLANK, f + TextField(4, d.userName), TextField(5, d.displayName),
             c.(userName := PresentText(d.userName)));
  }

  lemma ReadRkOption(rk: Option<bool>)
    ensures ReadOptions(None, if rk.Some? then [Field(Text(RK), Bool(rk.value))] else []) == Ok(rk)
  {
    if rk.Some? {
      assert [Field(Text(RK), Bool(rk.value))][1..] == [];
    }
  }

  lemma AlgorithmRoundTrip(c: Credential, a: seq<Field>, d: Draft, mid: Credential)
    requires ReadFields(c, a) == Ok(mid) && mid.alg == ES256 && mid.curve == P256
    ensures ReadFields(c, a + (if d.alg != ES256 || d.curve != P256 then
                                 [Field(UInt(9), Integer(d.alg)), Field(UInt(0x0A), Integer(d.curve))] else []))
         == Ok(mid.(alg := d.alg, curve := d.curve))
  {
    if d.alg != ES256 || d.curve != P256 {
      var f, g := [Field(UInt(9), Integer(d.alg))], [Field(UInt(0x0A), Integer(d.curve))];
      ReadNext(c, a, f, mid);
      ReadNext(c, a + f, g, mid.(alg := d.alg));
      assert a + f + g == a + [Field(UInt(9), Integer(d.alg)), Field(UInt(0x0A), Integer(d.curve))];
    } else {
      assert a + [] == a;
    }
  }

  lemma ExtensionsFieldRoundTrip(c: Credential, a: seq<Field>, e: Option<Extensions>, mid: Credential)
    requires ReadFields(c, a) == Ok(mid) && mid.extensions == None
    ensures ReadFields(c, a + ExtensionsField(e))
         == Ok(mid.(extensions := if e.Some? then Some(NormalExtensions(e.value)) else None))
  {
    if e.Some? {
      ExtensionsRoundTrip(e.value);
    }
    ReadNext(c, a, ExtensionsField(e), mid);
  }

  lemma OptionsFieldRoundTrip(c: Credential, a: seq<Field>, o: Option<Option<bool>>, mid: Credential)
    requires ReadFields(c, a) == Ok(mid) && mid.options == None
    ensures ReadFields(c, a + OptionsField(o)) == Ok(mid.(options := o))
  {
    if o.Some? {
      ReadRkOption(o.value);
    }
    ReadNext(c, a, OptionsField(o), mid);
  }

  lemma DetailsRoundTrip(d: Draft, now: nat, c: Credential)
    requires c == Named(d)
    ensures ReadFields(c, DetailFields(d, now)) == Ok(Normal(d, now, []))
  {
    var f6 := [Field(UInt(6), UInt(now))];
    var f7 := ExtensionsField(d.extensions);
    var f8 := [Field(UInt(8), Bool(d.useSignCount))];
    var f9 := if d.alg != ES256 || d.curve != P256 then
                [Field(UInt(9), Integer(d.alg)), Field(UInt(0x0A), Integer(d.curve))] else [];
    var c6 := c.(creation := now);
    var c7 := c6.(extensions := if d.extensions.Some? then Some(NormalExtensions(d.extensions.value)) else None);
    var c8 := c7.(useSignCount := Some(d.useSignCount));
    assert [] + f6 == f6;
    ReadNext(c, [], f6, c);
    ExtensionsFieldRoundTrip(c, f6, d.extensions, c6);
    ReadNext(c, f6 + f7, f8, c7);
    AlgorithmRoundTrip(c, f6 + f7 + f8, d, c8);
    OptionsFieldRoundTrip(c, f6 + f7 + f8 + f9, d.options, c8.(alg := d.alg, curve := d.curve));
  }

  lemma NamesEncodable(d: Draft, rpHash: Hash)
    requires d.Typed()
    ensures EncodableFields(NameFields(d, rpHash))
  {
  }

  lemma ExtensionsEncodable(e: Extensions)
    requires e.credProtect < UINT64
    ensures EncodableFields(ExtensionFields(e))
  {
    ExtensionNames();
  }

  lemma DetailsEncodable(d: Draft, now: nat)
    requires d.Typed() && now < UINT64
    ensures EncodableFields(DetailFields(d, now))
  {
    if d.extensions.Some? {
      ExtensionsEncodable(d.extensions.value);
    }
    var f := OptionsField(d.options);
    assert EncodableFields(f);
  }

  /** The pieces that `Verify` cuts a credential id into. */
  lemma Layout(iv: bytes, box: Box)
    requires |iv| == 12 && |box.tag| == 16
    ensures var id := PROTO + iv + box.cipher + box.tag;
      |id| == 32 + |box.cipher|
      && id[4..16] == iv && id[16..|id| - 16] == box.cipher && id[|id| - 16..] == box.tag
  {
  }

  /** Printing, sealing, opening and parsing, in a buffer that is large enough. */
  lemma LoadSealed(v: Vault, d: Draft, now: nat, iv: bytes, tail: bytes)
    requires v.Lawful() && d.Typed() && now < 0x1_0000_0000 && |iv| == 12 && |tail| == 16
    requires Create(v, d, now, iv, tail).Ok?
    ensures var id := Create(v, d, now, iv, tail).value;
      && |id| == 48 + |Plain(d, v.sha256(d.rpId), now)|
      && Load(v, id, v.sha256(d.rpId)) == Ok(Normal(d, now, id))
  {
    var rpHash := v.sha256(d.rpId);
    var fs := NameFields(d, rpHash) + DetailFields(d, now);
    var plain := Plain(d, rpHash, now) + tail;
    var box := v.seal(iv, rpHash, plain);
    Layout(iv, box);
    NamesEncodable(d, rpHash);
    DetailsEncodable(d, now);
    assert EncodableFields(fs);
    RoundTrip(Map(fs), tail);
    NamesRoundTrip(d, rpHash);
    ReadFieldsAppend(BLANK, NameFields(d, rpHash), DetailFields(d, now));
    DetailsRoundTrip(d, now, Named(d));
  }

  /**
   * Loading a created credential id under the hash of its RP id gives back the draft's fields in
   * normal form; the 16 bytes sealed behind the map play no part.
   */
  lemma LoadCreated(v: Vault, d: Draft, now: nat, iv: bytes, tail: bytes)
    requires v.Lawful() && d.Typed() && now < 0x1_0000_0000 && |iv| == 12 && |tail| == 16
    requires Fits(v, d, now)
    ensures Create(v, d, now, iv, tail).Ok?
    ensures var id := Create(v, d, now, iv, tail).value;
      && |id| == 48 + |Plain(d, v.sha256(d.rpId), now)| <= MAX_CRED_ID
      && Load(v, id, v.sha256(d.rpId)) == Ok(Normal(d, now, id))
  {
    LoadSealed(v, d, now, iv, tail);
  }

  /** What loads opens under the hash of that RP, or is a U2F key handle of the authenticator's own for it. */
  lemma LoadsOnlyOwn(v: Vault, id: bytes, h: Hash)
    ensures var opens := |id| >= 32 && v.open(id[4..16], h, Box(id[16..|id| - 16], id[|id| - 16..])).Some?;
      !opens ==>
        Load(v, id, h) == if |id| == 64 && v.ownHandle(h, id) then Ok(ZEROED.(id := id)) else Err(InvalidCredential)
  {
  }

  /** A created id loads for no RP whose hash does not open its box, unless it is taken for a U2F key handle. */
  lemma OtherRpRefused(v: Vault, d: Draft, now: nat, iv: bytes, tail: bytes, h: Hash)
    requires v.Lawful() && |iv| == 12 && |tail| == 16 && Create(v, d, now, iv, tail).Ok?
    requires v.open(iv, h, v.seal(iv, v.sha256(d.rpId), Plain(d, v.sha256(d.rpId), now) + tail)).None?
    ensures var id := Create(v, d, now, iv, tail).value;
      Load(v, id, h) == if |id| == 64 && v.ownHandle(h, id) then Ok(ZEROED.(id := id)) else Err(InvalidCredential)
  {
    Layout(iv, v.seal(iv, v.sha256(d.rpId), Plain(d, v.sha256(d.rpId), now) + tail));
    LoadsOnlyOwn(v, Create(v, d, now, iv, tail).value, h);
  }

  // ---------- the size of the buffer ----------

  /**
   * The printer may use 992 bytes, but 48 more are written around them. So of the drafts that are
   * printed, exactly those whose map has at most 976 bytes leave an id within the callers' buffer.
   */
  lemma FitsExactly(v: Vault, d: Draft, now: nat, iv: bytes, tail: bytes)
    requires v.Lawful() && |iv| == 12 && |tail| == 16
    requires Create(v, d, now, iv, tail).Ok?
    ensures |Create(v, d, now, iv, tail).value| <= MAX_CRED_ID <==> Fits(v, d, now)
    ensures |Create(v, d, now, iv, tail).value| <= MAX_CRED_ID + 16
  {
    var rpHash := v.sha256(d.rpId);
    Layout(iv, v.seal(iv, rpHash, Plain(d, rpHash, now) + tail));
  }

  /** A credential for a user with one-byte ids and the given name. */
  function NamedDraft(name: bytes): Draft {
    Draft([114], [1], name, [], None, true, ES256, P256, None)
  }

  lemma NamedNames(name: bytes, h: Hash)
    requires name != [] && 0 !in name
    ensures NameFields(NamedDraft(name), h)
      == [Field(UInt(1), Text([114])), Field(UInt(2), Blob(h)), Field(UInt(3), Blob([1])), Field(UInt(4), Text(name))]
  {
  }

  lemma NamedDetails(name: bytes)
    ensures DetailFields(NamedDraft(name), 0) == [Field(UInt(6), UInt(0)), Field(UInt(8), Bool(true))]
  {
  }

  lemma NamedFields(name: bytes, h: Hash)
    requires name != [] && 0 !in name
    ensures NameFields(NamedDraft(name), h) + DetailFields(NamedDraft(name), 0) == SixFields(name, h)
  {
    NamedNames(name, h);
    NamedDetails(name);
  }

  function SixFields(name: bytes, h: Hash): (fs: seq<Field>)
    ensures |fs| == 6
  {
    [Field(UInt(1), Text([114])), Field(UInt(2), Blob(h)), Field(UInt(3), Blob([1])), Field(UInt(4), Text(name)),
     Field(UInt(6), UInt(0)), Field(UInt(8), Bool(true))]
  }

  lemma SixLengths(name: bytes, h: Hash)
    requires 0x100 <= |name| < 0x1_0000
    ensures |EncodeFields(SixFields(name, h))| == 50 + |name|
  {
    ShortFieldLengths(h);
    NameFieldLength(name);
    EncodedLength(SixFields(name, h));
  }

  lemma NamedLength(v: Vault, name: bytes)
    requires 0x100 <= |name| < 0x1_0000 && 0 !in name
    ensures |Plain(NamedDraft(name), v.sha256([114]), 0)| == 51 + |name|
  {
    var h := v.sha256([114]);
    NamedFields(name, h);
    SixLengths(name, h);
  }

  lemma NameFieldLength(name: bytes)
    requires 0x100 <= |name| < 0x1_0000
    ensures |EncodeField(Field(UInt(4), Text(name)))| == |name| + 4
  {
  }

  lemma ShortFieldLengths(h: Hash)
    ensures |EncodeField(Field(UInt(1), Text([114])))| == 3 && |EncodeField(Field(UInt(2), Blob(h)))| == 35
    ensures |EncodeField(Field(UInt(3), Blob([1])))| == 3 && |EncodeField(Field(UInt(6), UInt(0)))| == 2
    ensures |EncodeField(Field(UInt(8), Bool(true)))| == 2
  {
    KeyLength(1, Text([114]));
    KeyLength(2, Blob(h));
    KeyLength(3, Blob([1]));
    KeyLength(6, UInt(0));
    KeyLength(8, Bool(true));
    StringLengths(h);
  }

  lemma KeyLength(k: nat, it: Item)
    requires k < 24
    ensures |EncodeField(Field(UInt(k), it))| == 1 + |Encode(it)|
  {
  }

  lemma StringLengths(h: Hash)
    ensures |Encode(Text([114]))| == 2 && |Encode(Blob(h))| == 34 && |Encode(Blob([1]))| == 2
  {
    assert |Head(2, 32)| == 2;
  }

  lemma EncodedLength(fs: seq<Field>)
    requires |fs| == 6
    ensures |EncodeFields(fs)| == 1 + |EncodeField(fs[0])| + |EncodeField(fs[1])| + |EncodeField(fs[2])|
      + |EncodeField(fs[3])| + |EncodeField(fs[4])| + |EncodeField(fs[5])|
  {
    assert fs[1..][1..] == fs[2..] && fs[2..][1..] == fs[3..] && fs[3..][1..] == fs[4..];
    assert fs[4..][1..] == fs[5..] && fs[5..][1..] == [];
    assert EncodeFields(fs[5..]) == EncodeField(fs[5]) + EncodeFields([]);
    assert EncodeFields(fs[4..]) == EncodeField(fs[4]) + EncodeFields(fs[5..]);
    assert EncodeFields(fs[3..]) == EncodeField(fs[3]) + EncodeFields(fs[4..]);
    assert EncodeFields(fs[2..]) == EncodeField(fs[2]) + EncodeFields(fs[3..]);
    assert EncodeFields(fs[1..]) == EncodeField(fs[1]) + EncodeFields(fs[2..]);
  }

  /** With a user name of 926 to 941 bytes the credential is printed, and its id is 1 to 16 bytes too long. */
  lemma LongNameOverruns(v: Vault, name: bytes, iv: bytes, tail: bytes)
    requires v.Lawful() && |iv| == 12 && |tail| == 16 && 926 <= |name| <= 941 && 0 !in name
    ensures NamedDraft(name).Typed() && !Fits(v, NamedDraft(name), 0)
    ensures Create(v, NamedDraft(name), 0, iv, tail).Ok?
    ensures |Create(v, NamedDraft(name), 0, iv, tail).value| == MAX_CRED_ID + (|name| - 925)
  {
    NamedLength(v, name);
    var rpHash := v.sha256([114]);
    Layout(iv, v.seal(iv, rpHash, Plain(NamedDraft(name), rpHash, 0) + tail));
  }
}
