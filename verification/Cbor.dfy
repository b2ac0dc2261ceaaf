/**
 * The subset of CBOR (RFC 8949, section 3) that the sealed credential is written in:
 * integers, byte and text strings of known length, booleans and indefinite-length maps.
 */
module Cbor {
  import opened Bytes

  datatype Item =
    | UInt(n: nat)
    | NegInt(n: nat)        // stands for -1 - n
    | Blob(data: bytes)
    | Text(text: bytes)
    | Bool(v: bool)
    | Map(fields: seq<Field>)

  datatype Field = Field(key: Item, value: Item)

  /** What a parser leaves behind: nothing on malformed input, else a value and the unread bytes. */
  datatype Parsed<+T> = Malformed | Read(value: T, rest: bytes)

  const INDEFINITE_MAP: byte := 0xBF
  const BREAK: byte := 0xFF
  const FALSE: byte := 0xF4
  const TRUE: byte := 0xF5

  const UINT64: nat := 0x1_0000_0000_0000_0000

  // ---------- big-endian numbers ----------

  function Pow256(k: nat): (p: nat)
    ensures p > 0
  {
    if k == 0 then 1 else 256 * Pow256(k - 1)
  }

  /** The k low bytes of n, most significant first. */
  function BigEndian(n: nat, k: nat): (s: bytes)
    ensures |s| == k
  {
    if k == 0 then [] else BigEndian(n / 256, k - 1) + [n % 256]
  }

  function Number(s: bytes): nat {
    if s == [] then 0 else 256 * Number(s[..|s| - 1]) + s[|s| - 1]
  }

  lemma {:induction false} NumberRoundTrip(n: nat, k: nat)
    requires n < Pow256(k)
    ensures Number(BigEndian(n, k)) == n
  {
    if k > 0 {
      var s := BigEndian(n, k);
      assert s[..k - 1] == BigEndian(n / 256, k - 1);
      NumberRoundTrip(n / 256, k - 1);
    }
  }

  /** The widths a CBOR head uses. */
  lemma HeadWidths()
    ensures Pow256(1) == 0x100 && Pow256(2) == 0x1_0000 && Pow256(4) == 0x1_0000_0000 && Pow256(8) == UINT64
  {
    assert Pow256(3) == 256 * Pow256(2);
    assert Pow256(5) == 256 * Pow256(4);
    assert Pow256(6) == 256 * Pow256(5);
    assert Pow256(7) == 256 * Pow256(6);
  }

  // ---------- item heads ----------

  function Head(major: nat, n: nat): (s: bytes)
    requires major < 6
    ensures |s| > 0 && s[0] / 32 == major && s[0] % 32 < 28
  {
    if n < 24 then [major * 32 + n]
    else if n < 0x100 then [major * 32 + 24] + BigEndian(n, 1)
    else if n < 0x1_0000 then [major * 32 + 25] + BigEndian(n, 2)
    else if n < 0x1_0000_0000 then [major * 32 + 26] + BigEndian(n, 4)
    else [major * 32 + 27] + BigEndian(n, 8)
  }

  /** Bytes of argument that follow an initial byte whose low five bits are `info`. */
  function ArgumentWidth(info: nat): nat
    requires 24 <= info < 28
  {
    if info == 24 then 1 else if info == 25 then 2 else if info == 26 then 4 else 8
  }

  function ParseHead(s: bytes): (r: Parsed<nat>)
    ensures r.Read? ==> |r.rest| < |s|
  {
    if s == [] then Malformed
    else
      var info := s[0] % 32;
      if info < 24 then Read(info, s[1..])
      else if info >= 28 then Malformed
      else
        var w := ArgumentWidth(info);
        if |s| < 1 + w then Malformed else Read(Number(s[1..1 + w]), s[1 + w..])
  }

  lemma HeadRoundTrip(major: nat, n: nat, rest: bytes)
    requires major < 6 && n < UINT64
    ensures ParseHead(Head(major, n) + rest) == Read(n, rest)
  {
    var s := Head(major, n) + rest;
    if n < 24 {
      assert s[1..] == rest;
    } else {
      HeadWidths();
      var w := ArgumentWidth(s[0] % 32);
      NumberRoundTrip(n, w);
      assert s[1..1 + w] == BigEndian(n, w);
      assert s[1 + w..] == rest;
    }
  }

  // ---------- items ----------

  /** The item's numbers and lengths fit a 64-bit head. */
  predicate Encodable(it: Item) {
    match it
    case UInt(n) => n < UINT64
    case NegInt(n) => n < UINT64
    case Blob(b) => |b| < UINT64
    case Text(t) => |t| < UINT64
    case Bool(_) => true
    case Map(fs) => forall f <- fs :: Encodable(f.key) && Encodable(f.value)
  }

  predicate EncodableFields(fs: seq<Field>) {
    forall f <- fs :: Encodable(f.key) && Encodable(f.value)
  }

  function Encode(it: Item): (s: bytes)
    ensures |s| > 0 && s[0] != BREAK
  {
    match it
    case UInt(n) => Head(0, n)
    case NegInt(n) => Head(1, n)
    case Blob(b) => Head(2, |b|) + b
    case Text(t) => Head(3, |t|) + t
    case Bool(v) => [if v then TRUE else FALSE]
    case Map(fs) => [INDEFINITE_MAP] + EncodeFields(fs)
  }

  function EncodeFields(fs: seq<Field>): bytes {
    if fs == [] then [BREAK]
    else EncodeField(fs[0]) + EncodeFields(fs[1..])
  }

  function EncodeField(f: Field): bytes {
    Encode(f.key) + Encode(f.value)
  }

  /** Number examples of appendix A of RFC 8949. */
  lemma NumberExamples()
    ensures Encode(UInt(0)) == [0x00] && Encode(UInt(23)) == [0x17] && Encode(UInt(24)) == [0x18, 0x18]
    ensures Encode(UInt(1000)) == [0x19, 0x03, 0xE8] && Encode(UInt(1000000)) == [0x1A, 0x00, 0x0F, 0x42, 0x40]
    ensures Encode(NegInt(0)) == [0x20] && Encode(NegInt(99)) == [0x38, 0x63]
  {
    BigEndianTwo(1000);
    BigEndianTwo(16960);
    BigEndianTwo(15);
    assert BigEndian(1000000, 4) == BigEndian(3906, 3) + [64] == BigEndian(15, 2) + [66] + [64];
    assert BigEndian(24, 1) == [] + [24] && BigEndian(99, 1) == [] + [99];
  }

  lemma BigEndianTwo(n: nat)
    requires n < 0x1_0000
    ensures BigEndian(n, 2) == [n / 256, n % 256]
  {
    assert BigEndian(n / 256, 1) == [] + [n / 256];
  }

  /** And of strings and booleans. */
  lemma StringExamples()
    ensures Encode(Blob([1, 2, 3, 4])) == [0x44, 1, 2, 3, 4]
    ensures Encode(Text([0x49, 0x45, 0x54, 0x46])) == [0x64, 0x49, 0x45, 0x54, 0x46]
    ensures Encode(Bool(false)) == [0xF4] && Encode(Bool(true)) == [0xF5]
  {
  }

  /** And the map of indefinite length {"Fun": true, "Amt": -2}. */
  lemma MapExample()
    ensures Encode(Map([Field(Text([0x46, 0x75, 0x6E]), Bool(true)), Field(Text([0x41, 0x6D, 0x74]), NegInt(1))]))
      == [0xBF, 0x63, 0x46, 0x75, 0x6E, 0xF5, 0x63, 0x41, 0x6D, 0x74, 0x21, 0xFF]
  {
    var (fun, amt) := (Field(Text([0x46, 0x75, 0x6E]), Bool(true)), Field(Text([0x41, 0x6D, 0x74]), NegInt(1)));
    FieldExamples();
    TwoFields(fun, amt);
  }

  lemma FieldExamples()
    ensures EncodeField(Field(Text([0x46, 0x75, 0x6E]), Bool(true))) == [0x63, 0x46, 0x75, 0x6E, 0xF5]
    ensures EncodeField(Field(Text([0x41, 0x6D, 0x74]), NegInt(1))) == [0x63, 0x41, 0x6D, 0x74, 0x21]
  {
  }

  lemma TwoFields(f: Field, g: Field)
    ensures EncodeFields([f, g]) == EncodeField(f) + EncodeField(g) + [BREAK]
  {
    assert [f, g][1..] == [g] && [g][1..] == [];
    assert EncodeFields([g]) == EncodeField(g) + [BREAK];
  }

  function ParseString(s: bytes): (r: Parsed<bytes>)
    ensures r.Read? ==> |r.rest| < |s|
  {
    match ParseHead(s)
    case Malformed => Malformed
    case Read(n, rest) => if n > |rest| then Malformed else Read(rest[..n], rest[n..])
  }

  function Parse(s: bytes): (r: Parsed<Item>)
    ensures r.Read? ==> |r.rest| < |s|
    decreases |s|, 0
  {
    if s == [] then Malformed
    else if s[0] == TRUE then Read(Bool(true), s[1..])
    else if s[0] == FALSE then Read(Bool(false), s[1..])
    else if s[0] == INDEFINITE_MAP then
      match ParseFields(s[1..])
      case Malformed => Malformed
      case Read(fs, rest) => Read(Map(fs), rest)
    else if s[0] / 32 <= 1 then
      match ParseHead(s)
      case Malformed => Malformed
      case Read(n, rest) => Read(if s[0] / 32 == 0 then UInt(n) else NegInt(n), rest)
    else if s[0] / 32 <= 3 then
      match ParseString(s)
      case Malformed => Malformed
      case Read(b, rest) => Read(if s[0] / 32 == 2 then Blob(b) else Text(b), rest)
    else Malformed
  }

  function ParseFields(s: bytes): (r: Parsed<seq<Field>>)
    ensures r.Read? ==> |r.rest| < |s|
    decreases |s|, 1
  {
    if s == [] then Malformed
    else if s[0] == BREAK then Read([], s[1..])
    else
      match Parse(s)
      case Malformed => Malformed
      case Read(k, s1) =>
        match Parse(s1)
        case Malformed => Malformed
        case Read(v, s2) =>
          match ParseFields(s2)
          case Malformed => Malformed
          case Read(fs, s3) => Read([Field(k, v)] + fs, s3)
  }

  lemma StringRoundTrip(major: nat, b: bytes, rest: bytes)
    requires major < 6 && |b| < UINT64
    ensures ParseString(Head(major, |b|) + b + rest) == Read(b, rest)
  {
    HeadRoundTrip(major, |b|, b + rest);
    assert Head(major, |b|) + b + rest == Head(major, |b|) + (b + rest);
    assert (b + rest)[..|b|] == b && (b + rest)[|b|..] == rest;
  }

  lemma IntegerRoundTrip(it: Item, rest: bytes)
    requires (it.UInt? || it.NegInt?) && Encodable(it)
    ensures Parse(Encode(it) + rest) == Read(it, rest)
  {
    HeadRoundTrip(if it.UInt? then 0 else 1, it.n, rest);
  }

  lemma TextualRoundTrip(it: Item, rest: bytes)
    requires (it.Blob? || it.Text?) && Encodable(it)
    ensures Parse(Encode(it) + rest) == Read(it, rest)
  {
    var major, b := if it.Blob? then 2 else 3, if it.Blob? then it.data else it.text;
    StringRoundTrip(major, b, rest);
    var s := Encode(it) + rest;
    assert s[0] == Head(major, |b|)[0];
  }

  lemma BoolRoundTrip(v: bool, rest: bytes)
    ensures Parse(Encode(Bool(v)) + rest) == Read(Bool(v), rest)
  {
    assert (Encode(Bool(v)) + rest)[1..] == rest;
  }

  lemma ParseMap(s: bytes, fs: seq<Field>, rest: bytes)
    requires |s| > 0 && s[0] == INDEFINITE_MAP && ParseFields(s[1..]) == Read(fs, rest)
    ensures Parse(s) == Read(Map(fs), rest)
  {
  }

  lemma MapRoundTrip(fs: seq<Field>, rest: bytes)
    requires ParseFields(EncodeFields(fs) + rest) == Read(fs, rest)
    ensures Parse(Encode(Map(fs)) + rest) == Read(Map(fs), rest)
  {
    AfterFirst(INDEFINITE_MAP, EncodeFields(fs), rest);
    ParseMap([INDEFINITE_MAP] + EncodeFields(fs) + rest, fs, rest);
  }

  lemma AfterFirst(b: byte, s: bytes, rest: bytes)
    ensures ([b] + s + rest)[0] == b && ([b] + s + rest)[1..] == s + rest
  {
  }

  /** Parsing undoes printing and stops exactly where the item ends, whatever follows it. */
  lemma {:induction false} RoundTrip(it: Item, rest: bytes)
    requires Encodable(it)
    ensures Parse(Encode(it) + rest) == Read(it, rest)
    decreases it, 0
  {
    match it
    case UInt(_) => IntegerRoundTrip(it, rest);
    case NegInt(_) => IntegerRoundTrip(it, rest);
    case Blob(_) => TextualRoundTrip(it, rest);
    case Text(_) => TextualRoundTrip(it, rest);
    case Bool(v) => BoolRoundTrip(v, rest);
    case Map(fs) =>
      FieldsRoundTrip(fs, rest);
      MapRoundTrip(fs, rest);
  }

  lemma {:induction false} FieldsRoundTrip(fs: seq<Field>, rest: bytes)
    requires EncodableFields(fs)
    ensures ParseFields(EncodeFields(fs) + rest) == Read(fs, rest)
    decreases fs, 1
  {
    if fs == [] {
      assert (EncodeFields(fs) + rest)[1..] == rest;
    } else {
      var more := EncodeFields(fs[1..]) + rest;
      assert EncodeFields(fs) + rest == EncodeField(fs[0]) + more;
      FieldRoundTrip(fs[0], more);
      FieldsRoundTrip(fs[1..], rest);
      assert [fs[0]] + fs[1..] == fs;
    }
  }

  lemma {:induction false} FieldRoundTrip(f: Field, rest: bytes)
    requires Encodable(f.key) && Encodable(f.value)
    ensures (EncodeField(f) + rest)[0] != BREAK
    ensures Parse(EncodeField(f) + rest) == Read(f.key, Encode(f.value) + rest)
    ensures Parse(Encode(f.value) + rest) == Read(f.value, rest)
    decreases f, 2
  {
    RoundTrip(f.key, Encode(f.value) + rest);
    RoundTrip(f.value, rest);
    assert EncodeField(f) + rest == Encode(f.key) + (Encode(f.value) + rest);
  }
}
