/**
 * The credential table seen as a map from (RP, user id) to credential id. User ids are compared over
 * the shorter length, so this holds as long as no two stored ids of one RP are comparable.
 */
module ResidentUsers {
  import opened Bytes
  import opened Cbor
  import opened SealedCredential
  import opened ResidentTables

  /** The user id of a stored credential; [] for a file that does not load. */
  function UserOf(v: Vault, f: bytes): bytes {
    if Loadable(v, f) then Load(v, f[32..], CredHash(f)).value.UserId() else []
  }

  /** Two files hold credentials of one RP whose user ids are comparable. */
  predicate Clash(v: Vault, f: bytes, g: bytes) {
    && Loadable(v, f) && Loadable(v, g)
    && CredHash(f) == CredHash(g)
    && Comparable(UserOf(v, f), UserOf(v, g))
  }

  /** No two stored credentials of one RP have comparable user ids. */
  ghost predicate UsersApart(v: Vault, s: seq<bytes>) {
    forall i, k :: 0 <= i < k < |s| ==> !Clash(v, s[i], s[k])
  }

  /** At most one stored credential of h is comparable to uid. */
  ghost predicate AtMostOneMatch(v: Vault, s: seq<bytes>, h: Hash, uid: bytes) {
    forall i, k :: 0 <= i < k < |s| ==> !(Matches(v, s[i], h, uid) && Matches(v, s[k], h, uid))
  }

  /** The file a store writes clashes with just the files that match its user. */
  lemma NewFile(v: Vault, id: bytes, h: Hash)
    requires Load(v, id, h).Ok?
    ensures Loadable(v, h + id) && Carries(h + id, h) && UserOf(v, h + id) == Load(v, id, h).value.UserId()
    ensures forall f :: Clash(v, f, h + id) <==> Matches(v, f, h, Load(v, id, h).value.UserId())
  {
    assert (h + id)[..32] == h && (h + id)[32..] == id;
  }

  lemma ClashSymmetric(v: Vault, f: bytes, g: bytes)
    ensures Clash(v, f, g) <==> Clash(v, g, f)
  {
  }

  lemma PutApart(v: Vault, s: seq<bytes>, i: nat, g: bytes)
    requires UsersApart(v, s) && i < |s|
    requires forall k :: 0 <= k < |s| && k != i ==> !Clash(v, s[k], g)
    ensures UsersApart(v, s[i := g])
  {
    var s' := s[i := g];
    forall j, k | 0 <= j < k < |s'|
      ensures !Clash(v, s'[j], s'[k])
    {
      if j == i {
        ClashSymmetric(v, s[k], g);
      }
    }
  }

  lemma PutClash(v: Vault, s: seq<bytes>, i: nat, g: bytes, j: nat)
    requires i < |s| && j < |s| && i != j && Clash(v, s[j], g)
    ensures !UsersApart(v, s[i := g])
  {
    ClashSymmetric(v, s[j], g);
    var s' := s[i := g];
    assert Clash(v, s'[j], s'[i]) && Clash(v, s'[i], s'[j]);
  }

  /**
   * A successful store keeps users apart exactly when the new user id is comparable to at most one
   * stored id of its RP. Otherwise one of the two is overwritten and the other is left beside it.
   */
  lemma StoreUsersApart(v: Vault, t: Tables, id: bytes, h: Hash)
    requires UsersApart(v, t.cred) && Store(v, t, id, h).0 == Success
    ensures UsersApart(v, Store(v, t, id, h).1.cred)
      <==> AtMostOneMatch(v, t.cred, h, Load(v, id, h).value.UserId())
  {
    var uid := Load(v, id, h).value.UserId();
    var i := StoreShape(v, t, id, h);
    NewFile(v, id, h);
    if AtMostOneMatch(v, t.cred, h, uid) {
      forall k | 0 <= k < |t.cred| && k != i
        ensures !Clash(v, t.cred[k], h + id)
      {
      }
      PutApart(v, t.cred, i, h + id);
    } else {
      var j, k :| 0 <= j < k < |t.cred| && Matches(v, t.cred[j], h, uid) && Matches(v, t.cred[k], h, uid);
      PutClash(v, t.cred, i, h + id, if i == j then k else j);
    }
  }

  // ---------- user ids of one length ----------

  /** Every stored user id has length n. */
  ghost predicate OneLength(v: Vault, s: seq<bytes>, n: nat) {
    forall i :: 0 <= i < |s| && Loadable(v, s[i]) ==> |UserOf(v, s[i])| == n
  }

  /** What the table holds for a user of an RP. */
  function Lookup(v: Vault, t: Tables, h: Hash, uid: bytes): Option<bytes> {
    var m := FirstMatch(v, t.cred, h, uid);
    if m < |t.cred| then Some(t.cred[m][32..]) else None
  }

  lemma OneLengthMatch(v: Vault, f: bytes, h: Hash, uid: bytes)
    requires Loadable(v, f) ==> |UserOf(v, f)| == |uid|
    ensures Matches(v, f, h, uid) <==> Loadable(v, f) && CredHash(f) == h && UserOf(v, f) == uid
  {
    if Loadable(v, f) {
      ComparableSameLength(UserOf(v, f), uid);
    }
  }

  lemma OneLengthOneMatch(v: Vault, s: seq<bytes>, h: Hash, uid: bytes)
    requires UsersApart(v, s) && OneLength(v, s, |uid|)
    ensures AtMostOneMatch(v, s, h, uid)
  {
    forall i, k | 0 <= i < k < |s|
      ensures !(Matches(v, s[i], h, uid) && Matches(v, s[k], h, uid))
    {
      OneLengthMatch(v, s[i], h, uid);
      OneLengthMatch(v, s[k], h, uid);
      assert !Clash(v, s[i], s[k]);
    }
  }

  /**
   * With user ids of one length, a successful store is a map update: the table then holds the new id
   * for its RP and user, and for every other RP and user what it held before.
   */
  lemma StoreRefinesUpdate(v: Vault, t: Tables, id: bytes, h: Hash, h': Hash, uid': bytes)
    requires UsersApart(v, t.cred) && OneLength(v, t.cred, |uid'|)
    requires Store(v, t, id, h).0 == Success && |Load(v, id, h).value.UserId()| == |uid'|
    ensures var (t', uid) := (Store(v, t, id, h).1, Load(v, id, h).value.UserId());
      && UsersApart(v, t'.cred) && OneLength(v, t'.cred, |uid'|)
      && Lookup(v, t', h', uid') == if h' == h && uid' == uid then Some(id) else Lookup(v, t, h', uid')
  {
    var t' := Store(v, t, id, h).1;
    var uid := Load(v, id, h).value.UserId();
    OneLengthOneMatch(v, t.cred, h, uid);
    StoreUsersApart(v, t, id, h);
    var i := StoreShape(v, t, id, h);
    NewFile(v, id, h);
    LookupAfterPut(v, t, t', i, h + id, h', uid');
    OneLengthMatch(v, h + id, h', uid');
    OneLengthMatch(v, t.cred[i], h', uid');
    if Matches(v, t.cred[i], h, uid) {
      OneLengthMatch(v, t.cred[i], h, uid);
    }
  }

  /** Looking up in a table with one file replaced. */
  lemma LookupAfterPut(v: Vault, t: Tables, t': Tables, i: nat, g: bytes, h: Hash, uid: bytes)
    requires i < |t.cred| && t'.cred == t.cred[i := g]
    requires OneLength(v, t.cred, |uid|) && OneLength(v, t'.cred, |uid|)
    requires UsersApart(v, t.cred) && UsersApart(v, t'.cred)
    ensures Matches(v, g, h, uid) ==> Lookup(v, t', h, uid) == Some(g[32..])
    ensures !Matches(v, g, h, uid) && !Matches(v, t.cred[i], h, uid) ==>
      Lookup(v, t', h, uid) == Lookup(v, t, h, uid)
  {
    OneLengthOneMatch(v, t.cred, h, uid);
    OneLengthOneMatch(v, t'.cred, h, uid);
    assert t'.cred[i] == g;
    var m, m' := FirstMatch(v, t.cred, h, uid), FirstMatch(v, t'.cred, h, uid);
    if Matches(v, g, h, uid) {
      assert m' == i;
    } else if !Matches(v, t.cred[i], h, uid) {
      assert forall k :: 0 <= k < |t.cred| ==> (Matches(v, t'.cred[k], h, uid) <==> Matches(v, t.cred[k], h, uid));
      assert m' == m;
    }
  }

  lemma UsersApartWithout(v: Vault, s: seq<bytes>, i: nat)
    requires UsersApart(v, s) && i < |s|
    ensures UsersApart(v, s[i := []])
  {
    PutApart(v, s, i, []);
  }

  /** With user ids of one length, delete removes the entry of the file it finds, and only that. */
  lemma DeleteRefinesRemoval(v: Vault, t: Tables, id: bytes, h: Hash, uid: bytes)
    requires Agree(v, t) && UsersApart(v, t.cred) && OneLength(v, t.cred, |uid|)
    requires FirstById(t.cred, id) < SLOTS
    ensures var (t', f) := (Delete(t, id).1, t.cred[FirstById(t.cred, id)]);
      && UsersApart(v, t'.cred) && OneLength(v, t'.cred, |uid|)
      && Lookup(v, t', h, uid) == if CredHash(f) == h && UserOf(v, f) == uid then None else Lookup(v, t, h, uid)
  {
    var i := FirstById(t.cred, id);
    var t' := Delete(t, id).1;
    UsersApartWithout(v, t.cred, i);
    LookupAfterPut(v, t, t', i, [], h, uid);
    OneLengthMatch(v, t.cred[i], h, uid);
    OneLengthOneMatch(v, t.cred, h, uid);
  }

  /** Deleting a newly stored credential restores both tables, when no other stored id is comparable. */
  lemma DeleteUndoesStore(v: Vault, t: Tables, id: bytes, h: Hash)
    requires Indexes(t) && Store(v, t, id, h).0 == Success
    requires forall k :: 0 <= k < SLOTS ==> !HasId(t.cred[k], id)
    requires forall k :: 0 <= k < SLOTS ==> !Matches(v, t.cred[k], h, Load(v, id, h).value.UserId())
    ensures Delete(Store(v, t, id, h).1, id) == (Success, t)
  {
    var t' := Store(v, t, id, h).1;
    var rpId := Load(v, id, h).value.RpId();
    var i := StoreShape(v, t, id, h);
    assert HasId(t'.cred[i], id);
    assert FirstById(t'.cred, id) == i;
    assert t'.cred[i := []] == t.cred;
    LiveBelow(t.cred, i);
    CountAtMostLive(t.cred, h);
    assert Indexed(t, h);
    ReleaseUndoesReference(t, h, rpId);
  }

  lemma DropUndoesBump(f: bytes)
    requires |f| > 0 && f[0] != 0
    ensures Drop(Bump(f)) == f
  {
  }

  lemma ReleaseUndoesReference(t: Tables, h: Hash, rpId: bytes)
    requires Indexed(t, h) && Count(t.cred, h) < SLOTS
    requires Reference(t.rp, h, rpId).Some?
    ensures Release(Reference(t.rp, h, rpId).value, h) == t.rp
  {
    var rp' := Reference(t.rp, h, rpId).value;
    var j := FirstRecord(t.rp, h);
    if j < |t.rp| {
      CountByteIsNotRecorded(t.rp[j], Byte(t.rp[j][0] as int + 1), h);
      DropUndoesBump(t.rp[j]);
      assert rp'[j] == Bump(t.rp[j]) && forall k :: 0 <= k < j ==> rp'[k] == t.rp[k];
      assert FirstRecord(rp', h) == j;
    } else {
      var e := FirstEmpty(t.rp);
      assert rp'[e][1..33] == h;
      assert FirstRecord(rp', h) == e;
    }
  }

  // ---------- credentials the authenticator made ----------

  predicate TypedUpdate(u: Update) {
    && |u.userName| < UINT64 && |u.displayName| < UINT64
    && u.now < 0x1_0000_0000 && |u.iv| == 12 && |u.tail| == 16
  }

  /** f is the file that makeCredential stores for the draft d; RP ids contain no NUL. */
  predicate Made(v: Vault, f: bytes, d: Draft, now: nat, iv: bytes, tail: bytes) {
    && d.Typed() && 0 !in d.rpId && now < 0x1_0000_0000 && |iv| == 12 && |tail| == 16
    && Create(v, d, now, iv, tail).Ok? && Fits(v, d, now)
    && f == v.sha256(d.rpId) + Create(v, d, now, iv, tail).value
  }

  lemma MadeLoads(v: Vault, f: bytes, d: Draft, now: nat, iv: bytes, tail: bytes)
    requires v.Lawful() && Made(v, f, d, now, iv, tail)
    ensures Loadable(v, f) && CredHash(f) == v.sha256(d.rpId) && f == CredHash(f) + f[32..]
    ensures Load(v, f[32..], CredHash(f)) == Ok(Normal(d, now, f[32..]))
    ensures UserOf(v, f) == d.userId
  {
    LoadCreated(v, d, now, iv, tail);
  }

  /** Sealing a loaded credential again changes the two names, the time, and the sign-count option to true. */
  lemma RedraftNormal(d: Draft, now: nat, id: bytes, u: Update, newId: bytes)
    requires d.Typed() && 0 !in d.rpId && TypedUpdate(u)
    ensures var d' := Redraft(Normal(d, now, id), u);
      && d'.Typed() && d'.rpId == d.rpId && d'.userId == d.userId
      && Normal(d', u.now, newId) == Normal(d, now, id).(
           userName := PresentText(u.userName), displayName := PresentText(u.displayName),
           creation := u.now, useSignCount := Some(true), id := newId)
  {
  }

  /**
   * Update-user of a credential the authenticator made, with no other stored id comparable to its
   * user: it rewrites exactly the file it located, keeps every RP count, and the new credential
   * loads with the new names and otherwise the old fields - except that the sign-count option comes
   * out true whatever it was.
   */
  lemma UpdateRewritesInPlace(v: Vault, t: Tables, id: bytes, u: Update, d: Draft, now: nat, iv: bytes, tail: bytes)
    requires v.Lawful() && TypedUpdate(u) && FirstById(t.cred, id) < |t.cred|
    requires Made(v, t.cred[FirstById(t.cred, id)], d, now, iv, tail)
    requires AtMostOneMatch(v, t.cred, v.sha256(d.rpId), d.userId)
    requires Comparable(u.userId, d.userId)
    requires Fits(v, Redraft(Normal(d, now, t.cred[FirstById(t.cred, id)][32..]), u), u.now)
    ensures Create(v, Redraft(Normal(d, now, t.cred[FirstById(t.cred, id)][32..]), u), u.now, u.iv, u.tail).Ok?
    ensures var (m, h) := (FirstById(t.cred, id), v.sha256(d.rpId));
      var newId := Create(v, Redraft(Normal(d, now, t.cred[m][32..]), u), u.now, u.iv, u.tail).value;
      && UpdateUser(v, t, id, u) == (Success, Tables(t.cred[m := h + newId], t.rp))
      && Load(v, newId, h) == Ok(Normal(d, now, t.cred[m][32..]).(
           userName := PresentText(u.userName), displayName := PresentText(u.displayName),
           creation := u.now, useSignCount := Some(true), id := newId))
  {
    var m := FirstById(t.cred, id);
    var f := t.cred[m];
    MadeLoads(v, f, d, now, iv, tail);
    var d' := Redraft(Normal(d, now, f[32..]), u);
    var newId := Create(v, d', u.now, u.iv, u.tail).value;
    RedraftNormal(d, now, f[32..], u, newId);
    LoadCreated(v, d', u.now, u.iv, u.tail);
    assert Matches(v, f, v.sha256(d.rpId), d.userId);
    assert FirstMatch(v, t.cred, v.sha256(d.rpId), d.userId) == m;
  }
}
