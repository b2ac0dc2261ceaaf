/**
 * Runs of makeCredential, delete and update-user on credentials the authenticator made: no two files
 * for one user while user ids have one length, and a run that ends with two when they do not.
 */
module ResidentRuns {
  import opened Bytes
  import opened Cbor
  import opened SealedCredential
  import opened ResidentTables
  import opened ResidentTheorems
  import opened ResidentUsers

  /** f is free, or a credential the authenticator made for a user id of length n. */
  ghost predicate Genuine(v: Vault, f: bytes, n: nat) {
    f == [] || exists d, now, iv, tail :: Made(v, f, d, now, iv, tail) && |d.userId| == n
  }

  ghost predicate GenuineTable(v: Vault, s: seq<bytes>, n: nat) {
    forall i :: 0 <= i < |s| ==> Genuine(v, s[i], n)
  }

  /** A store of a credential just made, any delete, or an update within the C types. */
  ghost predicate Proper(v: Vault, c: Command, n: nat) {
    match c
    case StoreCommand(id, h) => Genuine(v, h + id, n)
    case DeleteCommand(_) => true
    case UpdateCommand(_, u) => TypedUpdate(u)
  }

  /** What an update seals again fits the buffer it is sealed in. */
  predicate UpdateFits(v: Vault, t: Tables, c: Command) {
    c.UpdateCommand? && FirstById(t.cred, c.id) < |t.cred| ==>
      var f := t.cred[FirstById(t.cred, c.id)];
      Loadable(v, f) ==> Fits(v, Redraft(Load(v, f[32..], CredHash(f)).value, c.u), c.u.now)
  }

  /** Every update of the run, in the state that it meets. */
  predicate UpdatesFit(v: Vault, t: Tables, cs: seq<Command>) {
    cs == [] || (UpdatesFit(v, t, cs[..|cs| - 1]) && UpdateFits(v, Run(v, t, cs[..|cs| - 1]), cs[|cs| - 1]))
  }

  lemma GenuineUser(v: Vault, f: bytes, n: nat)
    requires v.Lawful() && Genuine(v, f, n) && f != []
    ensures Loadable(v, f) && |UserOf(v, f)| == n
  {
    var d, now, iv, tail :| Made(v, f, d, now, iv, tail) && |d.userId| == n;
    MadeLoads(v, f, d, now, iv, tail);
  }

  lemma GenuineOneLength(v: Vault, s: seq<bytes>, n: nat)
    requires v.Lawful() && GenuineTable(v, s, n)
    ensures OneLength(v, s, n)
  {
    forall i | 0 <= i < |s| && s[i] != []
      ensures |UserOf(v, s[i])| == n
    {
      GenuineUser(v, s[i], n);
    }
  }

  lemma StoreKeepsGenuine(v: Vault, t: Tables, id: bytes, h: Hash, n: nat)
    requires v.Lawful() && GenuineTable(v, t.cred, n) && UsersApart(v, t.cred) && Genuine(v, h + id, n)
    requires Store(v, t, id, h).0 == Success
    ensures GenuineTable(v, Store(v, t, id, h).1.cred, n) && UsersApart(v, Store(v, t, id, h).1.cred)
  {
    var i := StoreShape(v, t, id, h);
    GenuineOneLength(v, t.cred, n);
    NewFile(v, id, h);
    GenuineUser(v, h + id, n);
    OneLengthOneMatch(v, t.cred, h, Load(v, id, h).value.UserId());
    StoreUsersApart(v, t, id, h);
  }

  /** What update-user seals for a credential made of a draft is made of one for the same RP and user. */
  lemma RedraftMade(v: Vault, f: bytes, u: Update, d: Draft, now: nat, iv: bytes, tail: bytes)
    requires v.Lawful() && Made(v, f, d, now, iv, tail) && TypedUpdate(u)
    ensures Loadable(v, f)
    ensures var d' := Redraft(Load(v, f[32..], CredHash(f)).value, u);
      var created := Create(v, d', u.now, u.iv, u.tail);
      && d'.rpId == d.rpId && d'.userId == d.userId
      && (created.Ok? && Fits(v, d', u.now) ==>
            Made(v, CredHash(f) + created.value, d', u.now, u.iv, u.tail))
  {
    MadeLoads(v, f, d, now, iv, tail);
    RedraftNormal(d, now, f[32..], u, []);
  }

  /** What update-user seals for a genuine credential is genuine again, for the same user. */
  lemma RedraftGenuine(v: Vault, f: bytes, u: Update, n: nat)
    requires v.Lawful() && Genuine(v, f, n) && f != [] && TypedUpdate(u)
    ensures Loadable(v, f)
    ensures var d := Redraft(Load(v, f[32..], CredHash(f)).value, u);
      var created := Create(v, d, u.now, u.iv, u.tail);
      created.Ok? && Fits(v, d, u.now) ==> Genuine(v, CredHash(f) + created.value, n)
  {
    var d, now, iv, tail :| Made(v, f, d, now, iv, tail) && |d.userId| == n;
    RedraftMade(v, f, u, d, now, iv, tail);
  }

  lemma UpdateKeepsGenuine(v: Vault, t: Tables, c: Command, n: nat)
    requires v.Lawful() && Agree(v, t) && GenuineTable(v, t.cred, n) && UsersApart(v, t.cred)
    requires c.UpdateCommand? && Proper(v, c, n) && UpdateFits(v, t, c) && Step(v, t, c).0 == Success
    ensures GenuineTable(v, Step(v, t, c).1.cred, n) && UsersApart(v, Step(v, t, c).1.cred)
  {
    var (f, u) := (t.cred[FirstById(t.cred, c.id)], c.u);
    RedraftGenuine(v, f, u, n);
    var created := Create(v, Redraft(Load(v, f[32..], CredHash(f)).value, u), u.now, u.iv, u.tail);
    StoreKeepsGenuine(v, t, created.value, CredHash(f), n);
  }

  lemma StepKeepsGenuine(v: Vault, t: Tables, c: Command, n: nat)
    requires v.Lawful() && Agree(v, t) && GenuineTable(v, t.cred, n) && UsersApart(v, t.cred)
    requires Proper(v, c, n) && UpdateFits(v, t, c)
    ensures GenuineTable(v, Step(v, t, c).1.cred, n) && UsersApart(v, Step(v, t, c).1.cred)
  {
    StepAgrees(v, t, c);
    if Step(v, t, c).0 == Success {
      match c
      case StoreCommand(id, h) =>
        StoreKeepsGenuine(v, t, id, h, n);
      case DeleteCommand(id) =>
        UsersApartWithout(v, t.cred, FirstById(t.cred, id));
      case UpdateCommand(id, u) =>
        UpdateKeepsGenuine(v, t, c, n);
    }
  }

  /**
   * With user ids of one length, no run of makeCredential, delete and update-user reaches a state
   * with two credentials for one RP and user.
   */
  lemma {:induction false} RunUsersApart(v: Vault, cs: seq<Command>, n: nat)
    requires v.Lawful() && UpdatesFit(v, NOTHING, cs) && forall c <- cs :: Proper(v, c, n)
    ensures var t := Run(v, NOTHING, cs);
      GenuineTable(v, t.cred, n) && UsersApart(v, t.cred)
  {
    if cs != [] {
      var before := cs[..|cs| - 1];
      RunUsersApart(v, before, n);
      RunAgrees(v, before);
      StepKeepsGenuine(v, Run(v, NOTHING, before), cs[|cs| - 1], n);
    }
  }

  // ---------- user ids of different lengths ----------

  const RP_ID: bytes := [114]
  const IV: bytes := seq(12, _ => 0)
  const TAIL: bytes := seq(16, _ => 0)

  /** A draft with nothing but an RP id and a user id. */
  function Plainest(uid: bytes): Draft {
    Draft(RP_ID, uid, [], [], None, true, ES256, P256, None)
  }

  lemma {:induction false} FieldsFit(fs: seq<Field>)
    requires forall f <- fs :: |EncodeField(f)| <= 64
    ensures |EncodeFields(fs)| <= 64 * |fs| + 1
  {
    if fs != [] {
      FieldsFit(fs[1..]);
    }
  }

  lemma PlainestFits(v: Vault, uid: bytes)
    requires 0 < |uid| <= 16
    ensures Create(v, Plainest(uid), 0, IV, TAIL).Ok? && Fits(v, Plainest(uid), 0)
  {
    var d, h := Plainest(uid), v.sha256(RP_ID);
    var fs := [Field(UInt(1), Text(RP_ID)), Field(UInt(2), Blob(h)), Field(UInt(3), Blob(uid)),
               Field(UInt(6), UInt(0)), Field(UInt(8), Bool(true))];
    assert NameFields(d, h) + DetailFields(d, 0) == fs;
    FieldsFit(fs);
  }

  /** makeCredential for the plainest draft of a user. */
  function Register(v: Vault, uid: bytes): Command
    requires 0 < |uid| <= 16
  {
    PlainestFits(v, uid);
    StoreCommand(Create(v, Plainest(uid), 0, IV, TAIL).value, v.sha256(RP_ID))
  }

  /** A user unlike all stored ones gets the first free slot. */
  lemma RegisterNew(v: Vault, t: Tables, uid: bytes, e: nat) returns (f: bytes)
    requires v.Lawful() && Agree(v, t) && 0 < |uid| <= 16
    requires e < SLOTS && t.cred[e] == [] && forall k :: 0 <= k < e ==> t.cred[k] != []
    requires forall k :: 0 <= k < SLOTS ==> !Matches(v, t.cred[k], v.sha256(RP_ID), uid)
    ensures Step(v, t, Register(v, uid)).1.cred == t.cred[e := f] && f != []
    ensures forall u :: Matches(v, f, v.sha256(RP_ID), u) <==> Comparable(uid, u)
    ensures Carries(f, v.sha256(RP_ID))
    ensures Load(v, f[32..], v.sha256(RP_ID)) == Ok(Normal(Plainest(uid), 0, f[32..]))
  {
    PlainestFits(v, uid);
    LoadCreated(v, Plainest(uid), 0, IV, TAIL);
    var id := Create(v, Plainest(uid), 0, IV, TAIL).value;
    StoreAllOrNothing(v, t, id, v.sha256(RP_ID));
    NewFile(v, id, v.sha256(RP_ID));
    f := v.sha256(RP_ID) + id;
    assert FirstEmpty(t.cred) == e;
  }

  lemma RunOneMore(v: Vault, cs: seq<Command>, c: Command)
    ensures Run(v, NOTHING, cs + [c]) == Step(v, Run(v, NOTHING, cs), c).1
  {
    assert (cs + [c])[..|cs|] == cs;
  }

  lemma FirstRegistered(v: Vault) returns (f: bytes)
    requires v.Lawful()
    ensures Run(v, NOTHING, [Register(v, [1, 2])]).cred == NOTHING.cred[0 := f] && f != []
    ensures forall u :: Matches(v, f, v.sha256(RP_ID), u) <==> Comparable([1, 2], u)
  {
    NothingIndexes();
    RunOneMore(v, [], Register(v, [1, 2]));
    assert [] + [Register(v, [1, 2])] == [Register(v, [1, 2])];
    f := RegisterNew(v, NOTHING, [1, 2], 0);
  }

  /** After the users 01 02 and 01 03 there are two files, and the user 01 matches both. */
  lemma TwoRegistered(v: Vault)
    requires v.Lawful()
    ensures var t := Run(v, NOTHING, [Register(v, [1, 2]), Register(v, [1, 3])]);
      && |t.cred| == SLOTS
      && Matches(v, t.cred[0], v.sha256(RP_ID), [1]) && Matches(v, t.cred[1], v.sha256(RP_ID), [1])
  {
    var a, b := Register(v, [1, 2]), Register(v, [1, 3]);
    var f := FirstRegistered(v);
    RunAgrees(v, [a]);
    var t1 := Run(v, NOTHING, [a]);
    assert !Comparable([1, 2], [1, 3]) by {
      assert [1, 2][1] != [1, 3][1];
    }
    var g := RegisterNew(v, t1, [1, 3], 1);
    RunOneMore(v, [a], b);
    assert [a] + [b] == [a, b];
  }

  /** Registering the users 01 02, 01 03 and 01 leaves two files for comparable users. */
  lemma MixedLengthsClash(v: Vault)
    requires v.Lawful()
    ensures !UsersApart(v, Run(v, NOTHING, [Register(v, [1, 2]), Register(v, [1, 3]), Register(v, [1])]).cred)
  {
    var a, b, c := Register(v, [1, 2]), Register(v, [1, 3]), Register(v, [1]);
    assert [a, b, c][..2] == [a, b];
    var t := Run(v, NOTHING, [a, b]);
    TwoRegistered(v);
    PlainestFits(v, [1]);
    LoadCreated(v, Plainest([1]), 0, IV, TAIL);
    var id := Create(v, Plainest([1]), 0, IV, TAIL).value;
    NewFile(v, id, v.sha256(RP_ID));
    PutClash(v, t.cred, 0, v.sha256(RP_ID) + id, 1);
    assert FirstMatch(v, t.cred, v.sha256(RP_ID), [1]) == 0;
  }
}
