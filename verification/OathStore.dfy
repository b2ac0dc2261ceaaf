/**
 * The OATH application's 255 record files as a map from names to records, and the HOTP counters in
 * them over whole runs (section 5 of RFC 4226).
 */
module OathStore {
  import opened Bytes
  import opened Cbor
  import opened OathRecord

  const RECORDS: nat := 255
  const HEADROOM: nat := 10

  datatype Word = Done | IncorrectParams | IncorrectP1P2 | DataInvalid | NotValidated | FileFull | ExecError

  /** HMAC by algorithm number (1, 2, 3 for SHA-1, SHA-256, SHA-512), key and message; None when it fails. */
  datatype Hasher = Hasher(hmac: (nat, bytes, bytes) -> Option<bytes>)
  {
    ghost predicate Lawful() {
      forall a, k, m :: 1 <= a <= 3 && hmac(a, k, m).Some? ==> |hmac(a, k, m).value| == DigestSize(a)
    }
  }

  function DigestSize(a: nat): nat {
    if a == 1 then 20 else if a == 2 then 32 else 64
  }

  // ---------- lookup ----------

  predicate Holds(f: bytes, name: bytes) {
    f != [] && Get(f, NAME) == Some(name)
  }

  /** `find_oath_cred`: the first file that holds the name, 255 if none does. */
  function FindCred(s: seq<bytes>, name: bytes): (r: nat)
    ensures r <= |s|
    ensures r < |s| ==> Holds(s[r], name)
    ensures forall k {:trigger Holds(s[k], name)} :: 0 <= k < r ==> !Holds(s[k], name)
  {
    var holds := f => Holds(f, name);
    var r := First(holds, s);
    assert forall k :: 0 <= k < r ==> !holds(s[k]);
    r
  }

  /** The store as a map: the record of a name. */
  function Lookup(s: seq<bytes>, name: bytes): Option<bytes> {
    if FindCred(s, name) < |s| then Some(s[FindCred(s, name)]) else None
  }

  // ---------- commands ----------

  /** The record to store: an HOTP record gets a counter of at least eight bytes. */
  function Prepared(buf: bytes, nc: nat): (r: (bytes, nat))
    requires nc + HEADROOM <= |buf| && Find(buf[..nc], KEY, 0).Some?
    ensures |r.0| == |buf| && nc <= r.1 <= |buf|
  {
    var d := buf[..nc];
    var imf := Find(d, IMF, 0);
    if !Hotp(buf[Find(d, KEY, 0).value.start]) then (buf, nc)
    else if imf.None? then (Overwrite(buf, nc, NO_COUNTER), nc + HEADROOM)
    else if imf.value.len < COUNTER then (Padded(buf, imf.value), nc + COUNTER - imf.value.len)
    else (buf, nc)
  }

  /** The record that put stores, and the name that it looks for: the bytes now where the name was. */
  function Record(buf: bytes, nc: nat): bytes
    requires nc + HEADROOM <= |buf| && Find(buf[..nc], KEY, 0).Some?
  {
    Prepared(buf, nc).0[..Prepared(buf, nc).1]
  }

  function Searched(buf: bytes, nc: nat): bytes
    requires nc + HEADROOM <= |buf| && Find(buf[..nc], KEY, 0).Some? && Find(buf[..nc], NAME, 0).Some?
  {
    Value(Prepared(buf, nc).0, Find(buf[..nc], NAME, 0).value)
  }

  /** Put: over the record of that name, else into the first free file. */
  function Put(s: seq<bytes>, buf: bytes, nc: nat): (r: (Word, seq<bytes>))
    requires nc + HEADROOM <= |buf|
    ensures |r.1| == |s|
  {
    if Find(buf[..nc], KEY, 0).None? || Find(buf[..nc], NAME, 0).None? then (IncorrectParams, s)
    else
      var i := FindCred(s, Searched(buf, nc));
      var e := FirstEmpty(s);
      if i < |s| then (Done, s[i := Record(buf, nc)])
      else if e < |s| then (Done, s[e := Record(buf, nc)])
      else (FileFull, s)
  }

  function Delete(s: seq<bytes>, data: bytes): (r: (Word, seq<bytes>))
    ensures |r.1| == |s|
  {
    match Get(data, NAME)
    case None => (IncorrectParams, s)
    case Some(name) =>
      var i := FindCred(s, name);
      if i < |s| then (Done, s[i := []]) else (DataInvalid, s)
  }

  function Kind(f: bytes): byte
    requires Find(f, KEY, 0).Some?
  {
    At(f, Find(f, KEY, 0).value.start)
  }

  /** `calculate_oath`: the code for a challenge, whole or truncated. */
  function Code(h: Hasher, key: bytes, challenge: bytes, truncate: bool): Option<bytes>
    requires h.Lawful()
  {
    if |key| < 2 || !(1 <= key[0] % 16 <= 3) || h.hmac(key[0] as nat % 16, key[2..], challenge).None? then None
    else
      var mac := h.hmac(key[0] as nat % 16, key[2..], challenge).value;
      Some(if truncate then [5, key[1]] + Truncated(mac) else [Byte(|mac| + 1), key[1]] + mac)
  }

  /** Calculate, with the response; an HOTP counter is used and then incremented, modulo 2^64. */
  function Calculate(h: Hasher, s: seq<bytes>, data: bytes, p2: byte): (r: (Word, bytes, seq<bytes>))
    requires h.Lawful() && Sound(s)
    ensures |r.2| == |s|
  {
    if p2 > 1 then (IncorrectP1P2, [], s)
    else if Get(data, CHALLENGE).None? || Get(data, NAME).None? then (IncorrectParams, [], s)
    else
      var i := FindCred(s, Get(data, NAME).value);
      if i == |s| then (DataInvalid, [], s) else CalculateAt(h, s, i, Get(data, CHALLENGE).value, p2)
  }

  function CalculateAt(h: Hasher, s: seq<bytes>, i: nat, challenge: bytes, p2: byte): (r: (Word, bytes, seq<bytes>))
    requires h.Lawful() && i < |s| && Complete(s[i]) && p2 <= 1
    ensures |r.2| == |s|
  {
    var f := s[i];
    var hotp := Hotp(Kind(f));
    var code := Code(h, Get(f, KEY).value, if hotp then Get(f, IMF).value else challenge, p2 == 1);
    if code.None? then (ExecError, [RESPONSE + p2], s)
    else (Done, [RESPONSE + p2] + code.value, if hotp then s[i := Ticked(f)] else s)
  }

  /** The record with its counter one further. */
  function Ticked(f: bytes): (r: bytes)
    requires Counts(f)
    ensures |r| == |f|
  {
    WithCounter(f, (CounterOf(f) + 1) % UINT64)
  }

  // ---------- what all commands keep ----------

  /** A record has a name and a key, and a counter if it is for HOTP. */
  predicate Complete(f: bytes) {
    Get(f, NAME).Some? && Find(f, KEY, 0).Some? && (Hotp(Kind(f)) ==> Counts(f))
  }

  predicate Sound(s: seq<bytes>) {
    forall i :: 0 <= i < |s| ==> s[i] == [] || Complete(s[i])
  }

  /** No two files hold one name. */
  ghost predicate Distinct(s: seq<bytes>) {
    forall i, j, n :: 0 <= i < j < |s| && Holds(s[i], n) ==> !Holds(s[j], n)
  }

  /** Padding does no damage: there is nothing after the counter, or nothing to pad. */
  predicate Intact(buf: bytes, nc: nat)
    requires nc + HEADROOM <= |buf|
  {
    var d := buf[..nc];
    Find(d, KEY, 0).Some? && Hotp(buf[Find(d, KEY, 0).value.start]) ==>
      match Find(d, IMF, 0)
      case None => Whole(d, 0)
      case Some(p) => p.len >= COUNTER || p.End() == nc
  }

  /** r has the TLVs of d, in the same places, except for the moving factor. */
  ghost predicate Kept(d: bytes, r: bytes) {
    forall t :: t != IMF ==> Find(r, t, 0) == Find(d, t, 0) && Get(r, t) == Get(d, t)
  }

  lemma EarlierKept(d: bytes, r: bytes, n: nat)
    requires n <= |d| && n <= |r| && d[..n] == r[..n]
    requires forall t :: t != IMF ==> Find(r, t, 0) == Find(d, t, 0)
    requires forall t :: t != IMF && Find(d, t, 0).Some? ==> Find(d, t, 0).value.End() <= n
    ensures Kept(d, r)
  {
    forall t | t != IMF
      ensures Get(r, t) == Get(d, t)
    {
      if Find(d, t, 0).Some? {
        var p := Find(d, t, 0).value;
        assert Value(r, p) == r[..n][p.start..p.End()] && Value(d, p) == d[..n][p.start..p.End()];
      }
    }
  }

  /** An HOTP put without a counter starts at zero. */
  lemma AppendedRecord(buf: bytes, nc: nat)
    requires nc + HEADROOM <= |buf|
    requires var d := buf[..nc]; Find(d, IMF, 0).None? && Whole(d, 0)
    ensures var d := buf[..nc];
      var r := d + NO_COUNTER;
      && r == Overwrite(buf, nc, NO_COUNTER)[..nc + HEADROOM]
      && Kept(d, r)
      && Counts(r) && Get(r, IMF) == Some(Fill<byte>(0, COUNTER))
  {
    var d := buf[..nc];
    var r := d + NO_COUNTER;
    assert Header(r, nc) == Some((IMF, Place(nc + 2, COUNTER)));
    assert Header(r, nc + HEADROOM).None?;
    forall t
      ensures t != IMF ==> Find(r, t, 0) == Find(d, t, 0)
      ensures t == IMF ==> Find(r, t, 0) == Some(Place(nc + 2, COUNTER))
    {
      FindAppend(d, NO_COUNTER, t, 0);
    }
    assert r[..nc] == d[..nc];
    EarlierKept(d, r, nc);
    assert r[nc + 2..nc + 2 + COUNTER] == Fill<byte>(0, COUNTER);
  }

  /** A request whose counter is short, and at its end. */
  predicate ShortCounter(buf: bytes, nc: nat)
    requires nc + HEADROOM <= |buf|
  {
    var p := Find(buf[..nc], IMF, 0);
    p.Some? && p.value.len < COUNTER && p.value.End() == nc
  }

  lemma PaddedPlaces(buf: bytes, nc: nat)
    requires nc + HEADROOM <= |buf| && ShortCounter(buf, nc)
    ensures var (d, p) := (buf[..nc], Find(buf[..nc], IMF, 0).value);
      var r := Padded(buf, p)[..nc + COUNTER - p.len];
      && r == d[..p.start - 1] + [COUNTER] + Fill<byte>(0, COUNTER - p.len) + Value(d, p)
      && forall t :: Find(r, t, 0) == if t == IMF then Some(Place(p.start, COUNTER)) else Find(d, t, 0)
  {
    var (d, p) := (buf[..nc], Find(buf[..nc], IMF, 0).value);
    var r := Padded(buf, p)[..nc + COUNTER - p.len];
    assert Value(buf, p) == Value(d, p);
    assert r == d[..p.start - 1] + [COUNTER] + Fill<byte>(0, COUNTER - p.len) + Value(d, p);
    forall t
      ensures Find(r, t, 0) == if t == IMF then Some(Place(p.start, COUNTER)) else Find(d, t, 0)
    {
      FindPadded(d, r, t, p, 0);
    }
  }

  lemma PaddedKeeps(buf: bytes, nc: nat)
    requires nc + HEADROOM <= |buf| && ShortCounter(buf, nc)
    ensures var p := Find(buf[..nc], IMF, 0).value;
      Kept(buf[..nc], Padded(buf, p)[..nc + COUNTER - p.len])
  {
    var (d, p) := (buf[..nc], Find(buf[..nc], IMF, 0).value);
    var r := Padded(buf, p)[..nc + COUNTER - p.len];
    PaddedPlaces(buf, nc);
    forall t | t != IMF && Find(d, t, 0).Some?
      ensures Find(d, t, 0).value.End() <= p.start - 1
    {
      Disjoint(d, t, IMF, 0);
    }
    assert r[..p.start - 1] == d[..p.start - 1];
    EarlierKept(d, r, p.start - 1);
  }

  /** An HOTP put with a short counter at the end keeps its value. */
  lemma PaddedRecord(buf: bytes, nc: nat)
    requires nc + HEADROOM <= |buf| && ShortCounter(buf, nc)
    ensures var (d, p) := (buf[..nc], Find(buf[..nc], IMF, 0).value);
      var r := Padded(buf, p)[..nc + COUNTER - p.len];
      && Kept(d, r)
      && Counts(r) && Get(r, IMF) == Some(Fill<byte>(0, COUNTER - p.len) + Value(d, p))
      && CounterOf(r) == Number(Value(d, p))
  {
    var (d, p) := (buf[..nc], Find(buf[..nc], IMF, 0).value);
    var r := Padded(buf, p)[..nc + COUNTER - p.len];
    PaddedPlaces(buf, nc);
    PaddedKeeps(buf, nc);
    assert r[p.start..p.start + COUNTER] == Fill<byte>(0, COUNTER - p.len) + Value(d, p);
    NumberZeros(COUNTER - p.len, Value(d, p));
  }
}
