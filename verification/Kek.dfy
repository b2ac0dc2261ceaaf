/**
 * The master key-encryption key (MKEK): stored raw until a PIN exists, then encrypted under a key
 * derived from the PIN, with a 32-bit CRC of the key behind it.
 */
module Kek {
  import opened Bytes

  const IV_SIZE: nat := 16
  const KEY_SIZE: nat := 32
  const CHECKSUM_SIZE: nat := 4
  const RAW_SIZE: nat := IV_SIZE + KEY_SIZE
  const WRAPPED_SIZE: nat := RAW_SIZE + CHECKSUM_SIZE

  /**
   * The SDK's ciphers and hashes as functions: AES-256 in CFB mode (key, IV, data), AES-256-CBC under
   * the one-time-programmed key, the left half of SHA-256 of a PIN, and the two device-bound hashes
   * of that half, one stored as the PIN's verifier and one used as the session key.
   */
  datatype Suite = Suite(
    cfbEncrypt: (octets, octets, octets) -> octets,
    cfbDecrypt: (octets, octets, octets) -> octets,
    cbcEncrypt: (octets, octets) -> octets,
    cbcDecrypt: (octets, octets) -> octets,
    pinHash: octets -> octets,
    doubleHash: octets -> octets,
    hashMulti: octets -> octets)
  {
    /**
     * Decryption undoes encryption, lengths are kept, a PIN hash has 16 bytes, and PINs with one verifier
     * have one session key.
     */
    ghost predicate Lawful() {
      && (forall x :: |pinHash(x)| == 16)
      && (forall k, iv, x :: cfbDecrypt(k, iv, cfbEncrypt(k, iv, x)) == x)
      && (forall k, iv, x :: |cfbEncrypt(k, iv, x)| == |x|)
      && (forall k, iv, x :: |cfbDecrypt(k, iv, x)| == |x|)
      && (forall k, x :: cbcDecrypt(k, cbcEncrypt(k, x)) == x)
      && (forall k, x :: |cbcEncrypt(k, x)| == |x|)
      && (forall x, y :: doubleHash(x) == doubleHash(y) ==> hashMulti(x) == hashMulti(y))
    }
  }

  // ---------- the checksum (`crc32c`, which has the polynomial of CRC-32) ----------

  const POLY: bv32 := 0xEDB88320

  function CrcBit(c: bv32): bv32 {
    (c >> 1) ^ (POLY & (0 - (c & 1)))
  }

  function CrcBits(c: bv32, k: nat): bv32 {
    if k == 0 then c else CrcBit(CrcBits(c, k - 1))
  }

  function CrcByte(c: bv32, b: bv8): bv32 {
    CrcBits(c ^ (b as bv32), 8)
  }

  function CrcRun(c: bv32, s: octets): bv32 {
    if s == [] then c else CrcByte(CrcRun(c, s[..|s| - 1]), s[|s| - 1])
  }

  function Crc(s: octets): bv32 {
    !CrcRun(0xFFFFFFFF, s)
  }

  /** `crc32c`. */
  method Crc32c(buf: octets) returns (r: bv32)
    ensures r == Crc(buf)
  {
    var crc: bv32 := 0xFFFFFFFF;
    for i := 0 to |buf|
      invariant crc == CrcRun(0xFFFFFFFF, buf[..i])
    {
      crc := Crc32cByte(crc, buf[i]);
      assert buf[..i + 1][..i] == buf[..i];
    }
    assert buf[..|buf|] == buf;
    r := !crc;
  }

  /** The inner loop of `crc32c`. */
  method Crc32cByte(c: bv32, b: bv8) returns (crc: bv32)
    ensures crc == CrcByte(c, b)
  {
    crc := c ^ (b as bv32);
    for k := 0 to 8
      invariant crc == CrcBits(c ^ (b as bv32), k)
    {
      crc := (crc >> 1) ^ (POLY & (0 - (crc & 1)));
    }
  }

  // The check value of CRC-32 is its checksum of the nine ASCII digits 1 to 9.

  function FourBits(c: bv32): bv32 {
    CrcBit(CrcBit(CrcBit(CrcBit(c))))
  }

  lemma EightBits(c: bv32)
    ensures CrcBits(c, 8) == FourBits(FourBits(c))
  {
    assert CrcBits(c, 0) == c && CrcBits(c, 1) == CrcBit(c);
    assert CrcBits(c, 2) == CrcBit(CrcBit(c));
    assert CrcBits(c, 4) == CrcBit(CrcBit(CrcBits(c, 2)));
    assert CrcBits(c, 6) == CrcBit(CrcBit(CrcBits(c, 4)));
  }

  const DIGITS: octets := [0x31, 0x32, 0x33, 0x34, 0x35, 0x36, 0x37, 0x38, 0x39]

  lemma NextDigit(k: nat, c: bv32, after: bv32)
    requires k < 9 && CrcRun(0xFFFFFFFF, DIGITS[..k]) == c && CrcByte(c, DIGITS[k]) == after
    ensures CrcRun(0xFFFFFFFF, DIGITS[..k + 1]) == after
  {
    assert DIGITS[..k + 1][..k] == DIGITS[..k];
  }

  lemma ByteIs(c: bv32, b: bv8)
    ensures CrcByte(c, b) == FourBits(FourBits(c ^ (b as bv32)))
  {
    var x := c ^ (b as bv32);
    EightBits(x);
  }

  lemma ThreeDigits()
    ensures CrcRun(0xFFFFFFFF, DIGITS[..3]) == 0x77B79C2D
  {
    ByteIs(0xFFFFFFFF, 0x31);
    NextDigit(0, 0xFFFFFFFF, 0x7C231048);
    ByteIs(0x7C231048, 0x32);
    NextDigit(1, 0x7C231048, 0xB0ACBB32);
    ByteIs(0xB0ACBB32, 0x33);
    NextDigit(2, 0xB0ACBB32, 0x77B79C2D);
  }

  lemma SixDigits()
    ensures CrcRun(0xFFFFFFFF, DIGITS[..6]) == 0xF68D2C9E
  {
    ThreeDigits();
    ByteIs(0x77B79C2D, 0x34);
    NextDigit(3, 0x77B79C2D, 0x641C1F5C);
    ByteIs(0x641C1F5C, 0x35);
    NextDigit(4, 0x641C1F5C, 0x340AC5E3);
    ByteIs(0x340AC5E3, 0x36);
    NextDigit(5, 0x340AC5E3, 0xF68D2C9E);
  }

  /** The checksum is CRC-32. */
  lemma CheckValue()
    ensures Crc(DIGITS) == 0xCBF43926
  {
    SixDigits();
    ByteIs(0xF68D2C9E, 0x37);
    NextDigit(6, 0xF68D2C9E, 0xAFFC9660);
    ByteIs(0xAFFC9660, 0x38);
    NextDigit(7, 0xAFFC9660, 0x651F2550);
    ByteIs(0x651F2550, 0x39);
    NextDigit(8, 0x651F2550, 0x340BC6D9);
    assert DIGITS[..9] == DIGITS;
  }

  /** A 32-bit word as the four bytes that memory holds. */
  function LittleEndian32(c: bv32): (s: octets)
    ensures |s| == CHECKSUM_SIZE
  {
    [(c & 0xFF) as bv8, ((c >> 8) & 0xFF) as bv8, ((c >> 16) & 0xFF) as bv8, (c >> 24) as bv8]
  }

  /** The least significant byte comes first. */
  lemma LittleEndianWord(c: bv32)
    ensures var s := LittleEndian32(c);
      (s[0] as bv32) | ((s[1] as bv32) << 8) | ((s[2] as bv32) << 16) | ((s[3] as bv32) << 24) == c
  {
  }

  // ---------- masking ----------

  function Xor(a: octets, b: octets): (r: octets)
    ensures |r| == |a|
    ensures forall i :: 0 <= i < |a| ==> r[i] == if i < |b| then a[i] ^ b[i] else a[i]
  {
    seq(|a|, i requires 0 <= i < |a| => if i < |b| then a[i] ^ b[i] else a[i])
  }

  lemma XorTwice(a: octets, b: octets)
    ensures Xor(Xor(a, b), b) == a
  {
    forall i | 0 <= i < |a| && i < |b|
      ensures (a[i] ^ b[i]) ^ b[i] == a[i]
    {
    }
  }

  /** A mask that may be absent. */
  function Masked(key: octets, mask: Option<octets>): (r: octets)
    ensures |r| == |key|
  {
    if mask.Some? then Xor(key, mask.value) else key
  }

  lemma MaskedTwice(key: octets, mask: Option<octets>)
    ensures Masked(Masked(key, mask), mask) == key
  {
    if mask.Some? {
      XorTwice(key, mask.value);
    }
  }

  /** `mkek_masked`, on the key part of the buffer. */
  method MkekMasked(key: array<bv8>, mask: Option<octets>)
    requires mask.Some? ==> |mask.value| == key.Length
    modifies key
    ensures key[..] == Masked(old(key[..]), mask)
  {
    if mask.Some? {
      for i := 0 to key.Length
        invariant forall k :: 0 <= k < i ==> key[k] == old(key[k]) ^ mask.value[k]
        invariant forall k :: i <= k < key.Length ==> key[k] == old(key[k])
      {
        key[i] := key[i] ^ mask.value[i];
      }
    }
  }

  // ---------- wrapping ----------

  /** The MKEK file holding the key-encryption key `raw` (IV and key) under a session key. */
  function Wrap(s: Suite, otp: Option<octets>, session: octets, raw: octets): octets
    requires |raw| == RAW_SIZE
  {
    var iv, key := raw[..IV_SIZE], Masked(raw[IV_SIZE..], otp);
    iv + s.cfbEncrypt(session, iv, key + LittleEndian32(Crc(key)))
  }

  /** What `load_mkek` makes of an MKEK file: raw, or unwrapped under the session key. */
  function Unwrap(s: Suite, otp: Option<octets>, session: octets, file: octets): (r: Result<octets>)
    requires |file| == RAW_SIZE || |file| == WRAPPED_SIZE
    ensures r.Ok? ==> |r.value| == RAW_SIZE
  {
    if |file| == RAW_SIZE then Ok(file)
    else
      var iv := file[..IV_SIZE];
      var plain := s.cfbDecrypt(session, iv, file[IV_SIZE..]);
      if |plain| != KEY_SIZE + CHECKSUM_SIZE || plain[KEY_SIZE..] != LittleEndian32(Crc(plain[..KEY_SIZE])) then
        Err(WrongDkek)
      else Ok(iv + Masked(plain[..KEY_SIZE], otp))
  }

  /** Unwrapping undoes wrapping, with or without a one-time-programmed key. */
  lemma UnwrapWrap(s: Suite, otp: Option<octets>, session: octets, raw: octets)
    requires s.Lawful() && |raw| == RAW_SIZE
    ensures |Wrap(s, otp, session, raw)| == WRAPPED_SIZE
    ensures Unwrap(s, otp, session, Wrap(s, otp, session, raw)) == Ok(raw)
  {
    var iv, key := raw[..IV_SIZE], Masked(raw[IV_SIZE..], otp);
    var plain := key + LittleEndian32(Crc(key));
    var file := Wrap(s, otp, session, raw);
    assert file[..IV_SIZE] == iv && file[IV_SIZE..] == s.cfbEncrypt(session, iv, plain);
    assert plain[..KEY_SIZE] == key && plain[KEY_SIZE..] == LittleEndian32(Crc(key));
    MaskedTwice(raw[IV_SIZE..], otp);
    assert iv + raw[IV_SIZE..] == raw;
  }

  /** The decrypted rest of an MKEK file: the key under the one-time key's mask, and the checksum of what that gives. */
  predicate Holds(plain: octets, otp: Option<octets>, key: octets)
    requires |key| == KEY_SIZE && (otp.Some? ==> |otp.value| == KEY_SIZE)
  {
    && |plain| == 36 && plain[32..] == LittleEndian32(Crc(plain[..32]))
    && forall i :: 0 <= i < 32 ==> plain[i] == if otp.Some? then key[i] ^ otp.value[i] else key[i]
  }

  /** A wrapped MKEK is the IV in the clear, and the masked key with its checksum under the session key. */
  lemma WrapHolds(s: Suite, otp: Option<octets>, session: octets, raw: octets)
    requires s.Lawful() && |raw| == RAW_SIZE && (otp.Some? ==> |otp.value| == KEY_SIZE)
    ensures var file := Wrap(s, otp, session, raw);
      |file| == 52 && file[..16] == raw[..16]
      && Holds(s.cfbDecrypt(session, raw[..16], file[16..]), otp, raw[16..])
  {
    UnwrapWrap(s, otp, session, raw);
    var key := Masked(raw[IV_SIZE..], otp);
    var plain := key + LittleEndian32(Crc(key));
    var file := Wrap(s, otp, session, raw);
    assert file[..IV_SIZE] == raw[..IV_SIZE] && file[IV_SIZE..] == s.cfbEncrypt(session, raw[..IV_SIZE], plain);
    assert plain[..KEY_SIZE] == key && plain[KEY_SIZE..] == LittleEndian32(Crc(key));
  }

  /** A raw file is taken as it is; a wrapped one is refused exactly when it holds no key with its checksum. */
  lemma UnwrapExactly(s: Suite, otp: Option<octets>, session: octets, file: octets)
    requires s.Lawful() && (otp.Some? ==> |otp.value| == KEY_SIZE)
    requires |file| == RAW_SIZE || |file| == WRAPPED_SIZE
    ensures |file| == 48 ==> Unwrap(s, otp, session, file) == Ok(file)
    ensures |file| == 52 ==>
      var (plain, r) := (s.cfbDecrypt(session, file[..16], file[16..]), Unwrap(s, otp, session, file));
      && (r.Err? <==> plain[32..] != LittleEndian32(Crc(plain[..32]))) && (r.Err? ==> r.error == WrongDkek)
      && (r.Ok? ==> r.value[..16] == file[..16] && Holds(plain, otp, r.value[16..]))
  {
    if |file| == WRAPPED_SIZE {
      var plain := s.cfbDecrypt(session, file[..16], file[16..]);
      MaskedTwice(plain[..KEY_SIZE], otp);
      var r := Unwrap(s, otp, session, file);
      if r.Ok? {
        assert r.value[16..] == Masked(plain[..KEY_SIZE], otp);
      }
    }
  }

  /** `store_mkek`, for an MKEK file that exists. */
  method StoreMkek(s: Suite, otp: Option<octets>, session: octets, raw: octets) returns (file: octets)
    requires |raw| == RAW_SIZE && (otp.Some? ==> |otp.value| == KEY_SIZE)
    ensures file == Wrap(s, otp, session, raw)
  {
    var iv := raw[..IV_SIZE];
    var key := new bv8[KEY_SIZE](i requires 0 <= i < KEY_SIZE => raw[IV_SIZE + i]);
    assert key[..] == raw[IV_SIZE..];
    MkekMasked(key, otp);
    var crc := Crc32c(key[..]);
    file := iv + s.cfbEncrypt(session, iv, key[..] + LittleEndian32(crc));
  }

  /** `load_mkek`. */
  method LoadMkek(s: Suite, otp: Option<octets>, session: octets, file: octets) returns (r: Result<octets>)
    requires |file| == RAW_SIZE || |file| == WRAPPED_SIZE
    requires s.Lawful() && (otp.Some? ==> |otp.value| == KEY_SIZE)
    ensures r == Unwrap(s, otp, session, file)
  {
    var iv := file[..IV_SIZE];
    if |file| != WRAPPED_SIZE {
      return Ok(file);
    }
    var plain := s.cfbDecrypt(session, iv, file[IV_SIZE..]);
    var key := new bv8[KEY_SIZE](i requires 0 <= i < KEY_SIZE => plain[i]);
    assert key[..] == plain[..KEY_SIZE];
    var crc := Crc32c(key[..]);
    if LittleEndian32(crc) != plain[KEY_SIZE..] {
      return Err(WrongDkek);
    }
    MkekMasked(key, otp);
    return Ok(iv + key[..]);
  }

  // ---------- the device key ----------

  /** The device key file that the first scan writes: encrypted under the one-time key, if any, and the MKEK. */
  function DeviceKeyFile(s: Suite, otp: Option<octets>, raw: octets, key: octets): octets
    requires |raw| == RAW_SIZE
  {
    s.cfbEncrypt(raw[IV_SIZE..], raw[..IV_SIZE], if otp.Some? then s.cbcEncrypt(otp.value, key) else key)
  }

  /** The device key file decrypts under the MKEK to the device key, under the one-time key if there is one. */
  lemma DeviceKeyFileHolds(s: Suite, otp: Option<octets>, raw: octets, key: octets)
    requires s.Lawful() && |raw| == RAW_SIZE
    ensures s.cfbDecrypt(raw[16..], raw[..16], DeviceKeyFile(s, otp, raw, key))
      == if otp.Some? then s.cbcEncrypt(otp.value, key) else key
  {
  }

  /** `load_keydev`, for a device key that is not held decrypted. */
  function LoadDeviceKey(s: Suite, otp: Option<octets>, session: octets, mkek: octets, keydev: octets): Result<octets>
    requires |mkek| == RAW_SIZE || |mkek| == WRAPPED_SIZE
  {
    var raw :- Unwrap(s, otp, session, mkek);
    var data := s.cfbDecrypt(raw[IV_SIZE..], raw[..IV_SIZE], keydev);
    Ok(if otp.Some? then s.cbcDecrypt(otp.value, data) else data)
  }

  /** With the MKEK at hand, the device key comes back as generated. */
  lemma DeviceKeyLoads(s: Suite, otp: Option<octets>, session: octets, mkek: octets, raw: octets, key: octets)
    requires s.Lawful() && |raw| == RAW_SIZE && (|mkek| == RAW_SIZE || |mkek| == WRAPPED_SIZE)
    requires Unwrap(s, otp, session, mkek) == Ok(raw)
    ensures LoadDeviceKey(s, otp, session, mkek, DeviceKeyFile(s, otp, raw, key)) == Ok(key)
  {
  }
}
