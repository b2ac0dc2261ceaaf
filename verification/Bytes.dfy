/** Byte strings as the firmware stores them, and the status codes its commands return. */
module Bytes {

  type byte = b: int | 0 <= b < 256

  type bytes = seq<byte>

  /** Byte strings on which the firmware works bit by bit. */
  type octets = seq<bv8>

  /** A 32-byte digest, as SHA-256 of an RP id. */
  type Hash = h: bytes | |h| == 32 witness seq(32, _ => 0)

  datatype Option<+T> = None | Some(value: T)

  datatype Result<+T> = Ok(value: T) | Err(error: Status)
  {
    predicate IsFailure() {
      Err?
    }

    function PropagateFailure<U>(): Result<U>
      requires Err?
    {
      Err(error)
    }

    function Extract(): T
      requires Ok?
    {
      value
    }
  }

  /** The CTAP status codes that the modelled commands tell apart. */
  datatype Status =
    | Success             // 0x00
    | InvalidParameter    // 0x02
    | InvalidLength       // 0x03
    | InvalidSeq          // 0x04
    | UnexpectedType      // 0x11
    | MissingParameter    // 0x14
    | StorageFull         // 0x18
    | InvalidCredential   // 0x22
    | OperationDenied     // 0x27
    | KeyStoreFull        // 0x28
    | UnsupportedOption   // 0x2B
    | InvalidOption       // 0x2C
    | NoCredentials       // 0x2E
    | NotAllowed          // 0x30
    | PinInvalid          // 0x31
    | PinBlocked          // 0x32
    | PinAuthInvalid      // 0x33
    | PinAuthBlocked      // 0x34
    | PinNotSet           // 0x35
    | PuatRequired        // 0x36
    | PinPolicyViolation  // 0x37
    | IntegrityFailure    // 0x3D
    | Unauthorized        // 0x40
    | WrongDkek           // the SDK's code for a key checksum that does not fit
    | BadCbor             // a CBOR library error
    | Other(code: int)

  function Min(a: int, b: int): int {
    if a < b then a else b
  }

  /** Assignment to a `uint8_t`. */
  function Byte(n: int): (r: byte)
    ensures 0 <= n < 256 ==> r == n
  {
    n % 256
  }

  /** `memcmp` over the shorter of the two lengths came out equal. */
  predicate Comparable(a: bytes, b: bytes) {
    forall k :: 0 <= k < |a| && k < |b| ==> a[k] == b[k]
  }

  /** At one common length, comparing over the shorter length is plain equality. */
  lemma ComparableSameLength(a: bytes, b: bytes)
    requires |a| == |b|
    ensures Comparable(a, b) <==> a == b
  {
  }

  // ---------- writing into a buffer ----------

  /** n times x. */
  function Fill<T>(x: T, n: nat): (s: seq<T>)
    ensures |s| == n && forall i :: 0 <= i < n ==> s[i] == x
  {
    seq(n, _ => x)
  }

  /** s with the elements of v at offset i. */
  function Overwrite<T>(s: seq<T>, i: nat, v: seq<T>): (r: seq<T>)
    requires i + |v| <= |s|
    ensures |r| == |s|
  {
    s[..i] + v + s[i + |v|..]
  }

  // ---------- searching a table of files ----------

  predicate Empty(f: bytes) {
    f == []
  }

  /** The least index of an element that satisfies p, |s| when there is none. */
  function First(p: bytes -> bool, s: seq<bytes>): (r: nat)
    ensures r <= |s|
    ensures r < |s| ==> p(s[r])
    ensures forall k {:trigger p(s[k])} :: 0 <= k < r ==> !p(s[k])
  {
    if s == [] || p(s[0]) then 0
    else
      assert forall k :: 0 <= k < |s| - 1 ==> s[1..][k] == s[k + 1];
      1 + First(p, s[1..])
  }

  function FirstEmpty(s: seq<bytes>): (r: nat)
    ensures r <= |s|
    ensures r < |s| ==> s[r] == []
    ensures forall k :: 0 <= k < r ==> s[k] != []
  {
    First(Empty, s)
  }
}
