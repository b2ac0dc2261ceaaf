/**
 * The two flash tables behind discoverable credentials: 256 credential files and 256 RP files that
 * count the credentials of one RP in a single byte. Store, delete and update-user are given here as
 * functions on the tables; section 6.8 of CTAP 2.1 relies on the two tables agreeing.
 */
module ResidentTables {
  import opened Bytes
  import opened SealedCredential

  const SLOTS: nat := 256
  const NO_SLOT: Status := Other(-1)

  /**
   * File contents, [] for a file without data. A credential file is the RP id hash followed by the
   * credential id; an RP file is a count byte, the RP id hash and the RP id.
   */
  datatype Tables = Tables(cred: seq<bytes>, rp: seq<bytes>)

  predicate WellFormed(t: Tables) {
    && |t.cred| == SLOTS && |t.rp| == SLOTS
    && (forall i :: 0 <= i < SLOTS ==> t.cred[i] == [] || |t.cred[i]| >= 32)
    && (forall i :: 0 <= i < SLOTS ==> t.rp[i] == [] || |t.rp[i]| >= 33)
  }

  /** The credential file f belongs to the RP with hash h. */
  predicate Carries(f: bytes, h: Hash) {
    |f| >= 32 && f[..32] == h
  }

  /** The RP file f is the record of h. */
  predicate Records(f: bytes, h: Hash) {
    |f| >= 33 && f[1..33] == h
  }

  function CredHash(f: bytes): Hash
    requires |f| >= 32
  {
    f[..32]
  }

  function RpHash(f: bytes): Hash
    requires |f| >= 33
  {
    f[1..33]
  }

  /** The stored credential belongs to h, loads, and has a user id comparable to uid. */
  predicate Matches(v: Vault, f: bytes, h: Hash, uid: bytes) {
    && Carries(f, h)
    && Load(v, f[32..], h).Ok?
    && Comparable(Load(v, f[32..], h).value.UserId(), uid)
  }

  predicate HasId(f: bytes, id: bytes) {
    |f| >= 32 && Comparable(f[32..], id)
  }

  function FirstMatch(v: Vault, s: seq<bytes>, h: Hash, uid: bytes): (r: nat)
    ensures r <= |s|
    ensures r < |s| ==> Matches(v, s[r], h, uid)
    ensures forall k :: 0 <= k < r ==> !Matches(v, s[k], h, uid)
  {
    var matches := f => Matches(v, f, h, uid);
    var r := First(matches, s);
    assert forall k :: 0 <= k < r ==> !matches(s[k]);
    r
  }

  function FirstRecord(s: seq<bytes>, h: Hash): (r: nat)
    ensures r <= |s|
    ensures r < |s| ==> Records(s[r], h)
    ensures forall k :: 0 <= k < r ==> !Records(s[k], h)
  {
    var records := f => Records(f, h);
    var r := First(records, s);
    assert forall k :: 0 <= k < r ==> !records(s[k]);
    r
  }

  function FirstById(s: seq<bytes>, id: bytes): (r: nat)
    ensures r <= |s|
    ensures r < |s| ==> HasId(s[r], id)
    ensures forall k :: 0 <= k < r ==> !HasId(s[k], id)
  {
    var hasId := f => HasId(f, id);
    var r := First(hasId, s);
    assert forall k :: 0 <= k < r ==> !hasId(s[k]);
    r
  }

  // ---------- the commands ----------

  function Bump(f: bytes): bytes
    requires |f| > 0
  {
    [Byte(f[0] as int + 1)] + f[1..]
  }

  /** The file after one credential less; deleted when its count byte reaches zero. */
  function Drop(f: bytes): bytes
    requires |f| > 0
  {
    if Byte(f[0] as int - 1) == 0 then [] else [Byte(f[0] as int - 1)] + f[1..]
  }

  /** Counts one more credential of h. */
  function Reference(rp: seq<bytes>, h: Hash, rpId: bytes): Option<seq<bytes>> {
    var j := FirstRecord(rp, h);
    var e := FirstEmpty(rp);
    if j < |rp| then Some(rp[j := Bump(rp[j])])
    else if e < |rp| then Some(rp[e := [1] + h + rpId])
    else None
  }

  /** Counts one credential of h less. */
  function Release(rp: seq<bytes>, h: Hash): seq<bytes> {
    var j := FirstRecord(rp, h);
    if j < |rp| then rp[j := Drop(rp[j])] else rp
  }

  function Store(v: Vault, t: Tables, id: bytes, h: Hash): (Status, Tables) {
    match Load(v, id, h)
    case Err(e) => (e, t)
    case Ok(c) =>
      var m := FirstMatch(v, t.cred, h, c.UserId());
      var e := FirstEmpty(t.cred);
      if m < |t.cred| then (Success, t.(cred := t.cred[m := h + id]))
      else if e == |t.cred| then (NO_SLOT, t)
      else
        var cred := t.cred[e := h + id];
        match Reference(t.rp, h, c.RpId())
        case None => (NO_SLOT, Tables(cred, t.rp))
        case Some(rp) => (Success, Tables(cred, rp))
  }

  function Delete(t: Tables, id: bytes): (Status, Tables) {
    var m := FirstById(t.cred, id);
    if m == |t.cred| then (NoCredentials, t)
    else (Success, Tables(t.cred[m := []], Release(t.rp, CredHash(t.cred[m]))))
  }

  /** The low 32 bits of n, read as a signed number. */
  function Int32(n: int): (r: int)
    ensures -0x8000_0000 <= r < 0x8000_0000
    ensures -0x8000_0000 <= n < 0x8000_0000 ==> r == n
  {
    (n + 0x8000_0000) % 0x1_0000_0000 - 0x8000_0000
  }

  /** The names an update brings, and the clock and randomness it uses. */
  datatype Update = Update(userId: bytes, userName: bytes, displayName: bytes, now: nat, iv: bytes, tail: bytes)

  /**
   * What update-user seals again. The sign-count option is passed on as a pointer, so it comes out
   * true whenever the loaded credential has the option at all.
   */
  function Redraft(c: Credential, u: Update): Draft {
    Draft(c.RpId(), c.UserId(), u.userName, u.displayName, c.extensions, c.useSignCount.Some?,
          Int32(c.alg), Int32(c.curve), c.options)
  }

  function UpdateUser(v: Vault, t: Tables, id: bytes, u: Update): (Status, Tables) {
    var m := FirstById(t.cred, id);
    if m == |t.cred| then (NoCredentials, t)
    else
      var h := CredHash(t.cred[m]);
      match Load(v, t.cred[m][32..], h)
      case Err(_) => (NotAllowed, t)
      case Ok(c) =>
        if !Comparable(u.userId, c.UserId()) then (InvalidParameter, t)
        else
          match Create(v, Redraft(c, u), u.now, u.iv, u.tail)
          case Err(_) => (NotAllowed, t)
          case Ok(newId) =>
            var (status, t') := Store(v, t, newId, h);
            (if status == Success then Success else NotAllowed, t')
  }

  // ---------- counting ----------

  /** How many credential files belong to h. */
  function Count(s: seq<bytes>, h: Hash): nat {
    if s == [] then 0
    else Count(s[..|s| - 1], h) + (if Carries(s[|s| - 1], h) then 1 else 0)
  }

  /** How many files have data. */
  function Live(s: seq<bytes>): (n: nat)
    ensures n <= |s|
  {
    if s == [] then 0
    else Live(s[..|s| - 1]) + (if s[|s| - 1] != [] then 1 else 0)
  }

  lemma {:induction false} CountUpdate(s: seq<bytes>, i: nat, f: bytes, h: Hash)
    requires i < |s|
    ensures Count(s[i := f], h) + (if Carries(s[i], h) then 1 else 0)
         == Count(s, h) + (if Carries(f, h) then 1 else 0)
  {
    var n := |s| - 1;
    if i == n {
      assert s[i := f][..n] == s[..n];
    } else {
      assert s[i := f][..n] == s[..n][i := f];
      CountUpdate(s[..n], i, f, h);
    }
  }

  lemma {:induction false} CarriedIsCounted(s: seq<bytes>, h: Hash, i: nat)
    requires i < |s| && Carries(s[i], h)
    ensures Count(s, h) > 0
  {
    if i < |s| - 1 {
      CarriedIsCounted(s[..|s| - 1], h, i);
    }
  }

  lemma {:induction false} CountedIsCarried(s: seq<bytes>, h: Hash) returns (i: nat)
    requires Count(s, h) > 0
    ensures i < |s| && Carries(s[i], h)
  {
    i := |s| - 1;
    if !Carries(s[i], h) {
      i := CountedIsCarried(s[..i], h);
    }
  }

  lemma {:induction false} LiveBelow(s: seq<bytes>, e: nat)
    requires e < |s| && s[e] == []
    ensures Live(s) < |s|
  {
    if e < |s| - 1 {
      LiveBelow(s[..|s| - 1], e);
    }
  }

  lemma {:induction false} CountAtMostLive(s: seq<bytes>, h: Hash)
    ensures Count(s, h) <= Live(s)
  {
    if s != [] {
      CountAtMostLive(s[..|s| - 1], h);
    }
  }

  // ---------- agreement of the two tables ----------

  ghost predicate Unrecorded(t: Tables, h: Hash) {
    && Count(t.cred, h) == 0
    && forall k :: 0 <= k < |t.rp| ==> !Records(t.rp[k], h)
  }

  ghost predicate RecordedAt(t: Tables, h: Hash, j: nat) {
    && j < |t.rp| && Records(t.rp[j], h)
    && Count(t.cred, h) > 0 && t.rp[j][0] == Count(t.cred, h) % 256
    && forall k :: 0 <= k < |t.rp| && k != j ==> !Records(t.rp[k], h)
  }

  /** Either nothing is stored for h and nothing recorded, or the one record of h counts what is stored. */
  ghost predicate Indexed(t: Tables, h: Hash) {
    Unrecorded(t, h) || RecordedAt(t, h, FirstRecord(t.rp, h))
  }

  lemma RecordedMeansIndexed(t: Tables, h: Hash, j: nat)
    requires RecordedAt(t, h, j)
    ensures Indexed(t, h)
  {
    assert FirstRecord(t.rp, h) == j;
  }

  /** The agreement spelled out: never two records, one iff a credential is stored, and its count byte. */
  lemma IndexMeaning(t: Tables, h: Hash)
    requires Indexed(t, h)
    ensures (exists j :: 0 <= j < |t.rp| && Records(t.rp[j], h))
       <==> (exists i :: 0 <= i < |t.cred| && Carries(t.cred[i], h))
    ensures forall j, k :: 0 <= j < |t.rp| && 0 <= k < |t.rp| && Records(t.rp[j], h) && Records(t.rp[k], h) ==> j == k
    ensures forall j :: 0 <= j < |t.rp| && Records(t.rp[j], h) ==> t.rp[j][0] == Count(t.cred, h) % 256
  {
    if Unrecorded(t, h) {
      forall i | 0 <= i < |t.cred|
        ensures !Carries(t.cred[i], h)
      {
        if Carries(t.cred[i], h) {
          CarriedIsCounted(t.cred, h, i);
        }
      }
    } else {
      var i := CountedIsCarried(t.cred, h);
    }
  }

  predicate Loadable(v: Vault, f: bytes) {
    |f| >= 32 && Load(v, f[32..], CredHash(f)).Ok?
  }

  /** The RP table indexes the credential table. */
  ghost predicate Indexes(t: Tables) {
    WellFormed(t) && forall h: Hash :: Indexed(t, h)
  }

  /** And every stored credential loads. */
  ghost predicate Agree(v: Vault, t: Tables) {
    && Indexes(t)
    && (forall i :: 0 <= i < SLOTS ==> t.cred[i] == [] || Loadable(v, t.cred[i]))
  }

  const NOTHING := Tables(seq(SLOTS, _ => []), seq(SLOTS, _ => []))

  lemma NothingIndexes()
    ensures Indexes(NOTHING) && forall v :: Agree(v, NOTHING)
  {
    forall h: Hash
      ensures Indexed(NOTHING, h)
    {
      if Count(NOTHING.cred, h) > 0 {
        var i := CountedIsCarried(NOTHING.cred, h);
        assert false;
      }
    }
  }

  /** Records is decided by bytes 1 to 32 alone, so a new count byte leaves it as it was. */
  lemma CountByteIsNotRecorded(f: bytes, b: byte, h: Hash)
    requires |f| >= 33
    ensures Records([b] + f[1..], h) <==> Records(f, h)
  {
    assert ([b] + f[1..])[1..33] == f[1..33];
  }

  /** A slot that records some other RP before and after does not matter to h. */
  lemma OtherSlotKeeps(t: Tables, t': Tables, h: Hash, j: nat, g: bytes)
    requires Indexed(t, h) && j < |t.rp|
    requires t'.rp == t.rp[j := g] && !Records(t.rp[j], h) && !Records(g, h)
    requires Count(t'.cred, h) == Count(t.cred, h)
    ensures Indexed(t', h)
  {
    if !Unrecorded(t, h) {
      RecordedMeansIndexed(t', h, FirstRecord(t.rp, h));
    }
  }

  lemma ReferenceKeepsOwn(t: Tables, t': Tables, h: Hash, rpId: bytes)
    requires Indexed(t, h)
    requires Reference(t.rp, h, rpId) == Some(t'.rp)
    requires Count(t'.cred, h) == Count(t.cred, h) + 1
    ensures Indexed(t', h)
  {
    var j := FirstRecord(t.rp, h);
    if j < |t.rp| {
      CountByteIsNotRecorded(t.rp[j], Byte(t.rp[j][0] as int + 1), h);
      RecordedMeansIndexed(t', h, j);
    } else {
      assert ([1] + h + rpId)[1..33] == h;
      RecordedMeansIndexed(t', h, FirstEmpty(t.rp));
    }
  }

  lemma ReferenceKeepsOther(t: Tables, t': Tables, h0: Hash, rpId: bytes, h: Hash)
    requires Indexed(t, h) && h != h0
    requires Reference(t.rp, h0, rpId) == Some(t'.rp)
    requires Count(t'.cred, h) == Count(t.cred, h)
    ensures Indexed(t', h)
  {
    var j := FirstRecord(t.rp, h0);
    if j < |t.rp| {
      CountByteIsNotRecorded(t.rp[j], Byte(t.rp[j][0] as int + 1), h);
      OtherSlotKeeps(t, t', h, j, Bump(t.rp[j]));
    } else {
      assert ([1] + h0 + rpId)[1..33] == h0;
      OtherSlotKeeps(t, t', h, FirstEmpty(t.rp), [1] + h0 + rpId);
    }
  }

  lemma ReleaseKeepsOwn(t: Tables, t': Tables, h: Hash)
    requires |t.cred| == SLOTS && Indexed(t, h)
    requires t'.rp == Release(t.rp, h)
    requires Count(t.cred, h) == Count(t'.cred, h) + 1
    ensures Indexed(t', h)
  {
    var j := FirstRecord(t.rp, h);
    CountAtMostLive(t.cred, h);
    if Drop(t.rp[j]) != [] {
      CountByteIsNotRecorded(t.rp[j], Byte(t.rp[j][0] as int - 1), h);
      RecordedMeansIndexed(t', h, j);
    }
  }

  lemma ReleaseKeepsOther(t: Tables, t': Tables, h0: Hash, h: Hash)
    requires Indexed(t, h) && h != h0
    requires t'.rp == Release(t.rp, h0)
    requires Count(t'.cred, h) == Count(t.cred, h)
    ensures Indexed(t', h)
  {
    var j := FirstRecord(t.rp, h0);
    if j < |t.rp| {
      CountByteIsNotRecorded(t.rp[j], Byte(t.rp[j][0] as int - 1), h);
      OtherSlotKeeps(t, t', h, j, Drop(t.rp[j]));
    } else if !Unrecorded(t, h) {
      RecordedMeansIndexed(t', h, FirstRecord(t.rp, h));
    }
  }

  /** Writing credential file f of h over another one of h, or into a free slot while counting it. */
  lemma PutIndexes(t: Tables, t': Tables, h: Hash, i: nat, f: bytes, rpId: bytes, h': Hash)
    requires Indexed(t, h') && i < |t.cred| && Carries(f, h) && t'.cred == t.cred[i := f]
    requires (Carries(t.cred[i], h) && t'.rp == t.rp)
          || (t.cred[i] == [] && Reference(t.rp, h, rpId) == Some(t'.rp))
    ensures Indexed(t', h')
  {
    CountUpdate(t.cred, i, f, h');
    if Carries(t.cred[i], h) {
      if !Unrecorded(t, h') {
        RecordedMeansIndexed(t', h', FirstRecord(t.rp, h'));
      }
    } else if h == h' {
      ReferenceKeepsOwn(t, t', h, rpId);
    } else {
      ReferenceKeepsOther(t, t', h, rpId, h');
    }
  }

  /** Where a successful store puts the credential, and what it does to the RP table. */
  lemma StoreShape(v: Vault, t: Tables, id: bytes, h: Hash) returns (i: nat)
    requires Store(v, t, id, h).0 == Success
    ensures Load(v, id, h).Ok?
    ensures var (c, t') := (Load(v, id, h).value, Store(v, t, id, h).1);
      && i < |t.cred| && t'.cred == t.cred[i := h + id]
      && Carries(h + id, h) && (h + id)[32..] == id
      && (if FirstMatch(v, t.cred, h, c.UserId()) < |t.cred|
          then Matches(v, t.cred[i], h, c.UserId()) && t'.rp == t.rp
          else t.cred[i] == [] && Reference(t.rp, h, c.RpId()) == Some(t'.rp))
  {
    var m := FirstMatch(v, t.cred, h, Load(v, id, h).value.UserId());
    i := if m < |t.cred| then m else FirstEmpty(t.cred);
    assert (h + id)[..32] == h && (h + id)[32..] == id;
  }

  lemma ReferenceShape(rp: seq<bytes>, h: Hash, rpId: bytes)
    requires forall i :: 0 <= i < |rp| ==> rp[i] == [] || |rp[i]| >= 33
    requires Reference(rp, h, rpId).Some?
    ensures var rp' := Reference(rp, h, rpId).value;
      |rp'| == |rp| && forall i :: 0 <= i < |rp| ==> rp'[i] == [] || |rp'[i]| >= 33
  {
  }

  /** A successful store keeps the two tables in agreement, whether the stored credentials load or not. */
  lemma StoreAgrees(v: Vault, t: Tables, id: bytes, h: Hash)
    requires Indexes(t) && Store(v, t, id, h).0 == Success
    ensures Indexes(Store(v, t, id, h).1)
    ensures Agree(v, t) ==> Agree(v, Store(v, t, id, h).1)
  {
    var t' := Store(v, t, id, h).1;
    var i := StoreShape(v, t, id, h);
    var rpId := Load(v, id, h).value.RpId();
    if t'.rp != t.rp {
      ReferenceShape(t.rp, h, rpId);
    }
    forall h': Hash
      ensures Indexed(t', h')
    {
      PutIndexes(t, t', h, i, h + id, rpId, h');
    }
  }
}
