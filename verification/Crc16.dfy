/** The CRC-16 of Yubico OTP: the reflected polynomial 0x8408 of RFC 1662, appendix C.2, bit by bit. */
module Crc16 {
  import opened Bytes

  const RESIDUE: bv16 := 0xF0B8

  function BitStep(c: bv16): bv16 {
    if c & 1 == 1 then (c >> 1) ^ 0x8408 else c >> 1
  }

  function Bits(c: bv16, n: nat): bv16
    decreases n
  {
    if n == 0 then c else Bits(BitStep(c), n - 1)
  }

  function ByteStep(c: bv16, b: bv8): bv16 {
    Bits(c ^ (b as bv16), 8)
  }

  /** The checksum from state c on. */
  function From(c: bv16, m: octets): bv16
    decreases |m|
  {
    if m == [] then c else From(ByteStep(c, m[0]), m[1..])
  }

  function Crc(m: octets): bv16 {
    From(0xFFFF, m)
  }

  /** `calculate_crc`. */
  method CalculateCrc(data: octets) returns (crc: bv16)
    ensures crc == Crc(data)
  {
    crc := 0xFFFF;
    for idx := 0 to |data|
      invariant From(crc, data[idx..]) == Crc(data)
    {
      assert data[idx..][1..] == data[idx + 1..];
      crc := ShiftByte(crc ^ (data[idx] as bv16));
    }
  }

  /** The inner loop. */
  method ShiftByte(start: bv16) returns (crc: bv16)
    ensures crc == Bits(start, 8)
  {
    crc := start;
    for i := 0 to 8
      invariant Bits(crc, 8 - i) == Bits(start, 8)
    {
      ghost var before := crc;
      var j := crc & 0x1;
      crc := crc >> 1;
      if j == 1 {
        crc := crc ^ 0x8408;
      }
      assert crc == BitStep(before);
    }
  }

  function Low(c: bv16): bv8 {
    (c & 0xFF) as bv8
  }

  function High(c: bv16): bv8 {
    (c >> 8) as bv8
  }

  /** A 16-bit word in little-endian order. */
  function LittleEndian16(c: bv16): octets {
    [Low(c), High(c)]
  }

  function Word(lo: bv8, hi: bv8): bv16 {
    (lo as bv16) | ((hi as bv16) << 8)
  }

  // ---------- one step ----------

  /** Four bit steps in closed form: the nibble that leaves the register is fed back in three places. */
  lemma FourBitsClosed(c: bv16)
    ensures Bits(c, 4) == FourSteps(c)
  {
    assert Bits(c, 4) == Bits(BitStep(BitStep(c)), 2) == BitStep(BitStep(BitStep(BitStep(c))));
  }

  function FourSteps(c: bv16): bv16 {
    var x := c & 0xF;
    (c >> 4) ^ (x << 12) ^ (x << 7) ^ x
  }

  lemma EightBits(c: bv16)
    ensures Bits(c, 8) == Bits(Bits(c, 4), 4)
  {
    var c2 := BitStep(BitStep(c));
    var c4 := BitStep(BitStep(c2));
    assert Bits(c, 8) == Bits(c2, 6) == Bits(c4, 4);
    assert Bits(c, 4) == Bits(c2, 2) == Bits(c4, 0);
  }

  /** What eight steps feed back for the byte that leaves the register. */
  function Feedback(x: bv16): bv16 {
    (x << 8) ^ (x << 3) ^ (x >> 4)
  }

  function Folded(x: bv16): (y: bv16)
    ensures y <= 0xFF
  {
    (x ^ (x << 4)) & 0xFF
  }

  function Closed(x: bv16): bv16 {
    (x >> 8) ^ Feedback(Folded(x))
  }

  /** The bit loop in closed form. */
  lemma EightBitsClosed(c: bv16)
    ensures Bits(c, 8) == Closed(c)
  {
    EightBits(c);
    FourBitsClosed(c);
    FourBitsClosed(FourSteps(c));
    FourTwice(c);
  }

  lemma FourTwice(c: bv16)
    ensures FourSteps(FourSteps(c)) == Closed(c)
  {
  }

  lemma BitInjective(c: bv16, d: bv16)
    ensures BitStep(c) == BitStep(d) ==> c == d
  {
  }

  lemma {:induction false} BitsInjective(c: bv16, d: bv16, n: nat)
    ensures Bits(c, n) == Bits(d, n) ==> c == d
    decreases n
  {
    if n > 0 {
      BitsInjective(BitStep(c), BitStep(d), n - 1);
      BitInjective(c, d);
    }
  }

  lemma {:induction false} FromInjective(c: bv16, d: bv16, m: octets)
    ensures From(c, m) == From(d, m) ==> c == d
    decreases |m|
  {
    if m != [] {
      FromInjective(ByteStep(c, m[0]), ByteStep(d, m[0]), m[1..]);
      BitsInjective(c ^ (m[0] as bv16), d ^ (m[0] as bv16), 8);
      XorInjective(c, d, m[0] as bv16);
    }
  }

  lemma XorInjective(c: bv16, d: bv16, x: bv16)
    ensures c ^ x == d ^ x ==> c == d
  {
  }

  lemma {:induction false} FromConcat(c: bv16, m: octets, k: octets)
    ensures From(c, m + k) == From(From(c, m), k)
    decreases |m|
  {
    if m == [] {
      assert m + k == k;
    } else {
      assert (m + k)[1..] == m[1..] + k;
      FromConcat(ByteStep(c, m[0]), m[1..], k);
    }
  }

  lemma ByteStepClosed(c: bv16, b: bv8)
    ensures ByteStep(c, b) == Closed(c ^ (b as bv16))
  {
    var x := c ^ (b as bv16);
    EightBitsClosed(x);
  }

  lemma ByteStepInjective(c: bv16, d: bv16, a: bv8, b: bv8)
    ensures ByteStep(c, a) == ByteStep(d, b) ==> c ^ (a as bv16) == d ^ (b as bv16)
  {
    BitsInjective(c ^ (a as bv16), d ^ (b as bv16), 8);
  }

  /** Two bytes are determined by where they take the register. */
  lemma PairInjective(c: bv16, a: bv8, b: bv8, a': bv8, b': bv8)
    requires ByteStep(ByteStep(c, a), b) == ByteStep(ByteStep(c, a'), b')
    ensures a == a' && b == b'
  {
    ByteStepInjective(ByteStep(c, a), ByteStep(c, a'), b, b');
    FirstByte(c, a, a', b, b');
    XorByteInjective(ByteStep(c, a), b, b');
  }

  /** The high half of the register after a byte tells the byte. */
  lemma FirstByte(c: bv16, a: bv8, a': bv8, b: bv8, b': bv8)
    ensures ByteStep(c, a) ^ (b as bv16) == ByteStep(c, a') ^ (b' as bv16) ==> a == a'
  {
    ByteStepClosed(c, a);
    ByteStepClosed(c, a');
    TopByte(c ^ (a as bv16), c ^ (a' as bv16), b as bv16, b' as bv16);
    XorByteInjective(c, a, a');
    HighKept(c, a, a');
  }

  lemma HighKept(c: bv16, a: bv8, b: bv8)
    ensures (c ^ (a as bv16)) >> 8 == (c ^ (b as bv16)) >> 8
  {
  }

  lemma TopByte(x: bv16, x': bv16, b: bv16, b': bv16)
    requires b <= 0xFF && b' <= 0xFF
    ensures x >> 8 == x' >> 8 && Closed(x) ^ b == Closed(x') ^ b' ==> x == x'
  {
    if x >> 8 == x' >> 8 && Closed(x) ^ b == Closed(x') ^ b' {
      HighOfSum(x >> 8, Feedback(Folded(x)), Feedback(Folded(x')), b, b');
      FeedbackInjective(Folded(x), Folded(x'));
      FoldedInjective(x, x');
    }
  }

  lemma HighOfSum(h: bv16, f: bv16, f': bv16, b: bv16, b': bv16)
    requires b <= 0xFF && b' <= 0xFF
    ensures (h ^ f) ^ b == (h ^ f') ^ b' ==> f >> 8 == f' >> 8
  {
  }

  lemma FeedbackInjective(y: bv16, y': bv16)
    requires y <= 0xFF && y' <= 0xFF
    ensures Feedback(y) >> 8 == Feedback(y') >> 8 ==> y == y'
  {
  }

  lemma FoldedInjective(x: bv16, x': bv16)
    ensures x >> 8 == x' >> 8 && Folded(x) == Folded(x') ==> x == x'
  {
  }

  lemma PairResidue(c: bv16)
    ensures ByteStep(ByteStep(c, Low(!c)), High(!c)) == RESIDUE
  {
    ByteStepClosed(c, Low(!c));
    ByteStepClosed(ByteStep(c, Low(!c)), High(!c));
    ComplementResidue(c, Low(!c) as bv16, High(!c) as bv16);
  }

  lemma ComplementResidue(c: bv16, lo: bv16, hi: bv16)
    requires lo == !c & 0xFF && hi == !c >> 8
    ensures Closed(Closed(c ^ lo) ^ hi) == RESIDUE
  {
  }

  // ---------- the checks ----------

  /** `check_crc` on the bytes of a configuration. */
  predicate Passes(m: octets) {
    Crc(m) == RESIDUE
  }

  /**
   * A message passes the check exactly when its last two bytes are the complement of the checksum of
   * what is before them, low byte first.
   */
  lemma PassesExactly(m: octets, lo: bv8, hi: bv8)
    ensures Passes(m + [lo, hi]) <==> [lo, hi] == LittleEndian16(!Crc(m))
  {
    var c := Crc(m);
    FromConcat(0xFFFF, m, [lo, hi]);
    TwoSteps(c, lo, hi);
    TwoSteps(c, Low(!c), High(!c));
    PairResidue(c);
    if Passes(m + [lo, hi]) {
      PairInjective(c, lo, hi, Low(!c), High(!c));
    }
  }

  lemma TwoSteps(c: bv16, a: bv8, b: bv8)
    ensures From(c, [a, b]) == ByteStep(ByteStep(c, a), b)
  {
    assert [a, b][1..] == [b] && [b][1..] == [];
    assert From(ByteStep(ByteStep(c, a), b), []) == ByteStep(ByteStep(c, a), b);
    assert From(ByteStep(c, a), [b]) == From(ByteStep(ByteStep(c, a), b), [b][1..]);
  }

  /** Changing two adjacent bytes, or one, changes the checksum. */
  lemma BurstDetected(m: octets, a: bv8, b: bv8, a': bv8, b': bv8, k: octets)
    requires Crc(m + [a, b] + k) == Crc(m + [a', b'] + k)
    ensures a == a' && b == b'
  {
    FromConcat(0xFFFF, m + [a, b], k);
    FromConcat(0xFFFF, m + [a', b'], k);
    FromConcat(0xFFFF, m, [a, b]);
    FromConcat(0xFFFF, m, [a', b']);
    FromInjective(From(0xFFFF, m + [a, b]), From(0xFFFF, m + [a', b']), k);
    TwoSteps(Crc(m), a, b);
    TwoSteps(Crc(m), a', b');
    PairInjective(Crc(m), a, b, a', b');
  }

  /** Two messages of one length that differ in exactly one byte never have the same checksum. */
  lemma OneByteDetected(m: octets, i: nat, b: bv8)
    requires i < |m| && m[i] != b
    ensures Crc(m[i := b]) != Crc(m)
  {
    var (before, after) := (m[..i], m[i + 1..]);
    assert m == before + [m[i]] + after && m[i := b] == before + [b] + after;
    if after != [] {
      assert before + [m[i]] + after == before + [m[i], after[0]] + after[1..];
      assert before + [b] + after == before + [b, after[0]] + after[1..];
      if Crc(m[i := b]) == Crc(m) {
        BurstDetected(before, m[i], after[0], b, after[0], after[1..]);
      }
    } else {
      assert before + [m[i]] + after == before + [m[i]] && before + [b] + after == before + [b];
      LastByteDetected(before, m[i], b);
    }
  }

  lemma LastByteDetected(m: octets, a: bv8, b: bv8)
    ensures Crc(m + [a]) == Crc(m + [b]) ==> a == b
  {
    FromConcat(0xFFFF, m, [a]);
    FromConcat(0xFFFF, m, [b]);
    OneStep(Crc(m), a);
    OneStep(Crc(m), b);
    ByteStepInjective(Crc(m), Crc(m), a, b);
    XorByteInjective(Crc(m), a, b);
  }

  lemma OneStep(c: bv16, a: bv8)
    ensures From(c, [a]) == ByteStep(c, a)
  {
    assert [a][1..] == [];
  }

  lemma XorByteInjective(c: bv16, a: bv8, b: bv8)
    ensures c ^ (a as bv16) == c ^ (b as bv16) ==> a == b
  {
  }
}
