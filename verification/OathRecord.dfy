/**
 * OATH records: BER-TLV data with a name, a key and, for HOTP, the moving factor, which is a
 * big-endian counter that the firmware pads, and later increments, inside the record.
 */
module OathRecord {
  import opened Bytes
  import opened Cbor

  const NAME: byte := 0x71
  const NAME_LIST: byte := 0x72
  const KEY: byte := 0x73
  const CHALLENGE: byte := 0x74
  const RESPONSE: byte := 0x75
  const IMF: byte := 0x7a
  const COUNTER: nat := 8

  // ---------- the TLV walk ----------

  /** Where a value is. */
  datatype Place = Place(start: nat, len: nat)
  {
    function End(): nat {
      start + len
    }
  }

  /** The tag and the value of the TLV at i, unless it is cut short. */
  function Header(d: bytes, i: nat): (r: Option<(byte, Place)>)
    ensures r.Some? ==> i + 2 <= r.value.1.start && r.value.1.End() <= |d|
  {
    if i + 2 > |d| then None
    else
      var l := d[i + 1];
      var p :=
        if l < 0x80 then Place(i + 2, l)
        else if l == 0x81 && i + 3 <= |d| then Place(i + 3, d[i + 2])
        else if l == 0x82 && i + 4 <= |d| then Place(i + 4, 256 * (d[i + 2] as nat) + d[i + 3] as nat)
        else Place(|d|, 1);
      if p.End() <= |d| then Some((d[i], p)) else None
  }

  /** The first TLV with tag t from i on. */
  function Find(d: bytes, t: byte, i: nat): (r: Option<Place>)
    ensures r.Some? ==> i + 2 <= r.value.start && r.value.End() <= |d|
    decreases |d| - i
  {
    match Header(d, i)
    case None => None
    case Some((tag, p)) => if tag == t then Some(p) else Find(d, t, p.End())
  }

  /** The walk from i on ends where the data do. */
  predicate Whole(d: bytes, i: nat)
    decreases |d| - i
  {
    i == |d| || (Header(d, i).Some? && Whole(d, Header(d, i).value.1.End()))
  }

  function Value(d: bytes, p: Place): (r: bytes)
    requires p.End() <= |d|
    ensures |r| == p.len
  {
    d[p.start..p.End()]
  }

  /** The value of a tag, if it is there. */
  function Get(d: bytes, t: byte): Option<bytes> {
    var p := Find(d, t, 0);
    if p.Some? then Some(Value(d, p.value)) else None
  }

  function At(d: bytes, i: nat): byte {
    if i < |d| then d[i] else 0
  }

  /** Extending the data changes nothing about the TLVs there are, and the walk goes on where they end. */
  lemma {:induction false} FindAppend(d: bytes, e: bytes, t: byte, i: nat)
    ensures Find(d, t, i).Some? ==> Find(d + e, t, i) == Find(d, t, i)
    ensures Find(d, t, i).None? && Whole(d, i) ==> Find(d + e, t, i) == Find(d + e, t, |d|)
    decreases |d| - i
  {
    if Header(d, i).Some? {
      assert Header(d + e, i) == Header(d, i);
      FindAppend(d, e, t, Header(d, i).value.1.End());
    }
  }

  /** Data that agree from i on have the same TLVs from i on. */
  lemma {:induction false} FindSuffix(d: bytes, d': bytes, t: byte, i: nat)
    requires i <= |d| == |d'| && d[i..] == d'[i..]
    ensures Find(d, t, i) == Find(d', t, i)
    decreases |d| - i
  {
    assert forall k :: i <= k < |d| ==> d[k] == d[i..][k - i] && d'[k] == d'[i..][k - i];
    assert Header(d, i) == Header(d', i);
    if Header(d, i).Some? {
      var j := Header(d, i).value.1.End();
      assert d[j..] == d[i..][j - i..] && d'[j..] == d'[i..][j - i..];
      FindSuffix(d, d', t, j);
    }
  }

  // ---------- what a platform writes ----------

  /** A TLV with its length in the shortest form. */
  function Tlv(tag: byte, v: bytes): (d: bytes)
    requires |v| < 0x1_0000
    ensures |v| + 2 <= |d| <= |v| + 4
  {
    [tag] + (if |v| < 0x80 then [|v|] else if |v| < 0x100 then [0x81, |v|] else [0x82, |v| / 256, |v| % 256]) + v
  }

  predicate Short(ts: seq<(byte, bytes)>) {
    forall i :: 0 <= i < |ts| ==> |ts[i].1| < 0x1_0000
  }

  function Written(ts: seq<(byte, bytes)>): bytes
    requires Short(ts)
  {
    if ts == [] then [] else Tlv(ts[0].0, ts[0].1) + Written(ts[1..])
  }

  /** The value that comes first under a tag. */
  function FirstUnder(ts: seq<(byte, bytes)>, tag: byte): Option<bytes> {
    if ts == [] then None else if ts[0].0 == tag then Some(ts[0].1) else FirstUnder(ts[1..], tag)
  }

  lemma TlvHeader(a: bytes, tag: byte, v: bytes, rest: bytes)
    requires |v| < 0x1_0000
    ensures var (d, start) := (a + Tlv(tag, v) + rest, |a| + |Tlv(tag, v)| - |v|);
      Header(d, |a|) == Some((tag, Place(start, |v|))) && d[start..start + |v|] == v
  {
    var tlv := Tlv(tag, v);
    var (d, start) := (a + tlv + rest, |a| + |tlv| - |v|);
    assert forall k :: 0 <= k < |tlv| ==> d[|a| + k] == tlv[k];
    assert tlv[|tlv| - |v|..] == v;
    assert d[start..start + |v|] == tlv[|tlv| - |v|..];
  }

  function GetFrom(d: bytes, t: byte, i: nat): Option<bytes> {
    var p := Find(d, t, i);
    if p.Some? then Some(Value(d, p.value)) else None
  }

  lemma NextTlv(a: bytes, tag: byte, v: bytes, rest: bytes, t: byte)
    requires |v| < 0x1_0000
    ensures var d := a + Tlv(tag, v) + rest;
      GetFrom(d, t, |a|) == if tag == t then Some(v) else GetFrom(d, t, |a + Tlv(tag, v)|)
  {
    TlvHeader(a, tag, v, rest);
  }

  lemma {:induction false} GetFromWritten(a: bytes, ts: seq<(byte, bytes)>, t: byte)
    requires Short(ts)
    ensures GetFrom(a + Written(ts), t, |a|) == FirstUnder(ts, t)
    decreases |ts|
  {
    if ts != [] {
      var (tag, v) := ts[0];
      assert a + Written(ts) == a + Tlv(tag, v) + Written(ts[1..]);
      NextTlv(a, tag, v, Written(ts[1..]), t);
      GetFromWritten(a + Tlv(tag, v), ts[1..], t);
    }
  }

  /** Of TLVs written one after the other, each tag gives the value that comes first under it. */
  lemma GetReadsBack(ts: seq<(byte, bytes)>, t: byte)
    requires Short(ts)
    ensures Get(Written(ts), t) == FirstUnder(ts, t)
  {
    GetFromWritten([], ts, t);
    assert [] + Written(ts) == Written(ts);
  }

  // ---------- overwriting a counter ----------

  lemma OverwriteParts(d: bytes, i: nat, v: bytes)
    requires i + |v| <= |d|
    ensures var r := Overwrite(d, i, v);
      r[..i] == d[..i] && r[i + |v|..] == d[i + |v|..] && r[i..i + |v|] == v
  {
  }

  /** Overwriting inside the value of one TLV leaves every TLV where it was. */
  lemma {:induction false} FindOverwrite(d: bytes, d': bytes, v: bytes, t: byte, own: byte, p: Place, i: nat)
    requires Find(d, own, i) == Some(p) && |v| <= p.len && d' == Overwrite(d, p.start, v)
    ensures Find(d', t, i) == Find(d, t, i)
    decreases |d| - i
  {
    var (tag, q) := Header(d, i).value;
    OverwriteParts(d, p.start, v);
    assert forall k :: 0 <= k < p.start ==> d'[k] == d'[..p.start][k] == d[..p.start][k] == d[k];
    assert Header(d', i) == Header(d, i);
    if tag == own {
      assert d'[p.End()..] == d'[p.start + |v|..][p.len - |v|..];
      assert d[p.End()..] == d[p.start + |v|..][p.len - |v|..];
      FindSuffix(d', d, t, p.End());
    } else {
      FindOverwrite(d, d', v, t, own, p, q.End());
    }
  }

  /** The record holds a counter of at least eight bytes. */
  predicate Counts(d: bytes) {
    Find(d, IMF, 0).Some? && Find(d, IMF, 0).value.len >= COUNTER
  }

  function CounterBytes(d: bytes): (r: bytes)
    requires Counts(d)
    ensures |r| == COUNTER
  {
    var p := Find(d, IMF, 0).value;
    d[p.start..p.start + COUNTER]
  }

  function CounterOf(d: bytes): nat
    requires Counts(d)
  {
    Number(CounterBytes(d))
  }

  /** The record with its counter set. */
  function WithCounter(d: bytes, v: nat): (r: bytes)
    requires Counts(d)
    ensures |r| == |d|
  {
    Overwrite(d, Find(d, IMF, 0).value.start, BigEndian(v, COUNTER))
  }

  /** Setting the counter sets it, and keeps the name, the key and every other TLV. */
  lemma WithCounterExact(d: bytes, v: nat)
    requires Counts(d) && v < UINT64
    ensures var d' := WithCounter(d, v);
      && (forall t :: Find(d', t, 0) == Find(d, t, 0))
      && (forall t :: t != IMF ==> Get(d', t) == Get(d, t))
      && Counts(d') && CounterBytes(d') == BigEndian(v, COUNTER) && CounterOf(d') == v
  {
    var p := Find(d, IMF, 0).value;
    var d' := WithCounter(d, v);
    forall t
      ensures Find(d', t, 0) == Find(d, t, 0)
    {
      FindOverwrite(d, d', BigEndian(v, COUNTER), t, IMF, p, 0);
    }
    forall t | t != IMF
      ensures Get(d', t) == Get(d, t)
    {
      if Find(d, t, 0).Some? {
        Disjoint(d, t, IMF, 0);
        OutsideKept(d, p.start, BigEndian(v, COUNTER), Find(d, t, 0).value);
      }
    }
    OverwriteParts(d, p.start, BigEndian(v, COUNTER));
    HeadWidths();
    NumberRoundTrip(v, COUNTER);
  }

  /** Values of different tags do not overlap, and the header of the later one is between them. */
  lemma {:induction false} Disjoint(d: bytes, t: byte, u: byte, i: nat)
    requires t != u && Find(d, t, i).Some? && Find(d, u, i).Some?
    ensures var (p, q) := (Find(d, t, i).value, Find(d, u, i).value);
      p.End() + 2 <= q.start || q.End() + 2 <= p.start
    decreases |d| - i
  {
    var (tag, p) := Header(d, i).value;
    if tag != t && tag != u {
      Disjoint(d, t, u, p.End());
    }
  }

  lemma OutsideKept(d: bytes, i: nat, v: bytes, q: Place)
    requires i + |v| <= |d| && q.End() <= |d| && (q.End() <= i || i + |v| <= q.start)
    ensures Value(Overwrite(d, i, v), q) == Value(d, q)
  {
    var d' := Overwrite(d, i, v);
    OverwriteParts(d, i, v);
    if q.End() <= i {
      assert Value(d', q) == d'[..i][q.start..q.End()] == d[..i][q.start..q.End()];
    } else {
      var k := i + |v|;
      assert Value(d', q) == d'[k..][q.start - k..q.End() - k] == d[k..][q.start - k..q.End() - k];
    }
  }

  /** Only the last setting of the counter shows. */
  lemma WithCounterTwice(d: bytes, v: nat, w: nat)
    requires Counts(d) && v < UINT64
    ensures Counts(WithCounter(d, v)) && WithCounter(WithCounter(d, v), w) == WithCounter(d, w)
  {
    WithCounterExact(d, v);
    OverwriteTwice(d, Find(d, IMF, 0).value.start, BigEndian(v, COUNTER), BigEndian(w, COUNTER));
  }

  lemma OverwriteTwice(d: bytes, i: nat, v: bytes, w: bytes)
    requires |v| == |w| && i + |v| <= |d|
    ensures Overwrite(Overwrite(d, i, v), i, w) == Overwrite(d, i, w)
  {
  }

  // ---------- padding a counter ----------

  /** What is appended to an HOTP record without a moving factor. */
  const NO_COUNTER: bytes := [IMF, COUNTER] + Fill<byte>(0, COUNTER)

  predicate Hotp(kind: byte) {
    kind / 16 == 1
  }

  /** The last p.len bytes before place p's end moved up to end after eight, zeros before them, and the length set. */
  function Padded(buf: bytes, p: Place): (r: bytes)
    requires 0 < p.start && p.len < COUNTER && p.start + COUNTER <= |buf|
    ensures |r| == |buf|
  {
    buf[..p.start - 1] + [COUNTER] + Fill<byte>(0, COUNTER - p.len) + Value(buf, p) + buf[p.start + COUNTER..]
  }

  lemma {:induction false} NumberZeros(n: nat, s: bytes)
    ensures Number(Fill<byte>(0, n) + s) == Number(s)
    decreases n + |s|
  {
    var z := Fill<byte>(0, n) + s;
    if s != [] {
      assert z[..|z| - 1] == Fill<byte>(0, n) + s[..|s| - 1];
      NumberZeros(n, s[..|s| - 1]);
    } else if n > 0 {
      assert z[..|z| - 1] == Fill<byte>(0, n - 1) + [];
      NumberZeros(n - 1, []);
    }
  }

  /** Padding a last counter keeps the TLVs before it, and makes it eight bytes long. */
  lemma {:induction false} FindPadded(d: bytes, d': bytes, t: byte, p: Place, i: nat)
    requires Find(d, IMF, i) == Some(p) && p.End() == |d| && p.len < COUNTER
    requires d' == d[..p.start - 1] + [COUNTER] + Fill<byte>(0, COUNTER - p.len) + Value(d, p)
    ensures Find(d', t, i) == if t == IMF then Some(Place(p.start, COUNTER)) else Find(d, t, i)
    decreases |d| - i
  {
    var (tag, q) := Header(d, i).value;
    assert forall k :: 0 <= k < p.start - 1 ==> d'[k] == d[k];
    if tag == IMF {
      assert d'[p.start - 1] == COUNTER;
      assert Header(d', i) == Some((IMF, Place(p.start, COUNTER)));
      assert Find(d', t, |d'|) == None && Find(d, t, |d|) == None;
    } else {
      assert Header(d', i) == Header(d, i);
      FindPadded(d, d', t, p, q.End());
    }
  }

  // ---------- truncation ----------

  /** The four bytes that the low nibble of the last byte points at, without the top bit. */
  function Truncated(h: bytes): (r: bytes)
    requires |h| >= 20
    ensures |r| == 4
  {
    var offset := h[|h| - 1] % 16;
    [h[offset] % 128, h[offset + 1], h[offset + 2], h[offset + 3]]
  }

  /** Dynamic truncation of section 5.3 of RFC 4226: the number there, modulo 2^31. */
  lemma TruncationExact(h: bytes)
    requires |h| >= 20
    ensures var offset := h[|h| - 1] % 16;
      Number(Truncated(h)) == Number(h[offset..offset + 4]) % 0x8000_0000
  {
    var offset := h[|h| - 1] % 16;
    var w := h[offset..offset + 4];
    NumberOfFour(w);
    NumberOfFour(Truncated(h));
  }

  lemma NumberOfFour(s: bytes)
    requires |s| == 4
    ensures Number(s) == 0x100_0000 * (s[0] as nat) + 0x1_0000 * (s[1] as nat) + 0x100 * (s[2] as nat) + s[3] as nat
  {
    assert s[..3][..2] == s[..2] && s[..2][..1] == s[..1] && s[..1][..0] == [];
    assert Number(s[..1]) == s[0];
    assert Number(s[..2]) == 256 * Number(s[..1]) + s[1];
    assert Number(s[..3]) == 256 * Number(s[..2]) + s[2];
  }
}
