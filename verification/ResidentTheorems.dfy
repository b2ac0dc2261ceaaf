/**
 * What store, delete and update-user keep true of the two resident tables, over every run, and what
 * each of them does to the credentials seen as a map from RP and user to credential id.
 */
module ResidentTheorems {
  import opened Bytes
  import opened SealedCredential
  import opened ResidentTables

  // ---------- delete ----------

  lemma ReleaseShape(rp: seq<bytes>, h: Hash)
    requires forall i :: 0 <= i < |rp| ==> rp[i] == [] || |rp[i]| >= 33
    ensures var rp' := Release(rp, h);
      |rp'| == |rp| && forall i :: 0 <= i < |rp| ==> rp'[i] == [] || |rp'[i]| >= 33
  {
  }

  lemma ClearIndexes(t: Tables, t': Tables, i: nat, h: Hash, h': Hash)
    requires |t.cred| == SLOTS && i < SLOTS && Indexed(t, h) && Indexed(t, h')
    requires Carries(t.cred[i], h) && t' == Tables(t.cred[i := []], Release(t.rp, h))
    ensures Indexed(t', h')
  {
    CountUpdate(t.cred, i, [], h');
    if h == h' {
      ReleaseKeepsOwn(t, t', h);
    } else {
      ReleaseKeepsOther(t, t', h, h');
    }
  }

  /** Delete keeps the two tables in agreement, also from the wrapped count of 256 credentials. */
  lemma DeleteAgrees(v: Vault, t: Tables, id: bytes)
    requires Indexes(t)
    ensures Indexes(Delete(t, id).1)
    ensures Agree(v, t) ==> Agree(v, Delete(t, id).1)
  {
    var i := FirstById(t.cred, id);
    if i < |t.cred| {
      var h := CredHash(t.cred[i]);
      ReleaseShape(t.rp, h);
      forall h': Hash
        ensures Indexed(Delete(t, id).1, h')
      {
        ClearIndexes(t, Delete(t, id).1, i, h, h');
      }
    }
  }

  /** Delete succeeds exactly when a stored id is comparable to the one given; refused, it changes nothing. */
  lemma DeleteExactly(t: Tables, id: bytes)
    ensures var (status, t') := Delete(t, id);
      && (status == Success <==> exists i :: 0 <= i < |t.cred| && HasId(t.cred[i], id))
      && (status != Success ==> status == NoCredentials && t' == t)
  {
  }

  /**
   * Update-user succeeds exactly when a stored id is comparable to the one given, and its credential
   * loads, is of that user, and can be sealed and stored again.
   */
  lemma UpdateExactly(v: Vault, t: Tables, id: bytes, u: Update)
    requires Indexes(t)
    ensures var (status, t') := UpdateUser(v, t, id, u);
      if forall i :: 0 <= i < |t.cred| ==> !HasId(t.cred[i], id) then status == NoCredentials && t' == t
      else
        var m := FirstById(t.cred, id);
        var h := CredHash(t.cred[m]);
        var loaded := Load(v, t.cred[m][32..], h);
        if loaded.Err? then status == NotAllowed && t' == t
        else if !Comparable(u.userId, loaded.value.UserId()) then status == InvalidParameter && t' == t
        else
          var created := Create(v, Redraft(loaded.value, u), u.now, u.iv, u.tail);
          && (status == Success <==> created.Ok? && Store(v, t, created.value, h).0 == Success)
          && (status == Success ==> t' == Store(v, t, created.value, h).1)
          && (status != Success ==> status == NotAllowed && t' == t)
  {
    UpdateAgrees(v, t, id, u);
  }

  // ---------- the pigeonhole ----------

  /** How many RP files record h. */
  function RecordCount(rp: seq<bytes>, h: Hash): nat {
    if rp == [] then 0
    else RecordCount(rp[..|rp| - 1], h) + (if Records(rp[|rp| - 1], h) then 1 else 0)
  }

  /** The credentials of every recorded RP, added up. */
  function Recorded(rp: seq<bytes>, s: seq<bytes>): nat {
    if rp == [] then 0
    else Recorded(rp[..|rp| - 1], s) + (if |rp[|rp| - 1]| >= 33 then Count(s, RpHash(rp[|rp| - 1])) else 0)
  }

  lemma {:induction false} RecordCountIsOne(rp: seq<bytes>, h: Hash, j: nat)
    requires forall k :: 0 <= k < |rp| && k != j ==> !Records(rp[k], h)
    requires j < |rp| ==> Records(rp[j], h)
    ensures RecordCount(rp, h) == if j < |rp| then 1 else 0
  {
    if rp != [] {
      RecordCountIsOne(rp[..|rp| - 1], h, j);
    }
  }

  lemma {:induction false} RecordedOneMore(rp: seq<bytes>, s: seq<bytes>, f: bytes)
    ensures Recorded(rp, s + [f])
         == Recorded(rp, s) + (if |f| >= 32 then RecordCount(rp, CredHash(f)) else 0)
  {
    if rp != [] {
      RecordedOneMore(rp[..|rp| - 1], s, f);
      assert (s + [f])[..|s|] == s;
    }
  }

  lemma {:induction false} RecordedNothing(rp: seq<bytes>)
    ensures Recorded(rp, []) == 0
  {
    if rp != [] {
      RecordedNothing(rp[..|rp| - 1]);
    }
  }

  lemma {:induction false} RecordedIsLive(rp: seq<bytes>, s: seq<bytes>)
    requires forall i :: 0 <= i < |s| && s[i] != [] ==> |s[i]| >= 32 && RecordCount(rp, CredHash(s[i])) == 1
    ensures Recorded(rp, s) == Live(s)
  {
    if s == [] {
      RecordedNothing(rp);
    } else {
      var n := |s| - 1;
      RecordedIsLive(rp, s[..n]);
      RecordedOneMore(rp, s[..n], s[n]);
      assert s[..n] + [s[n]] == s;
    }
  }

  /** Conservation: the recorded RPs account for every live credential exactly once. */
  lemma EveryCredentialRecordedOnce(t: Tables)
    requires Indexes(t)
    ensures Recorded(t.rp, t.cred) == Live(t.cred)
  {
    forall i | 0 <= i < |t.cred| && t.cred[i] != []
      ensures RecordCount(t.rp, CredHash(t.cred[i])) == 1
    {
      var h := CredHash(t.cred[i]);
      CarriedIsCounted(t.cred, h, i);
      assert Indexed(t, h);
      RecordCountIsOne(t.rp, h, FirstRecord(t.rp, h));
    }
    RecordedIsLive(t.rp, t.cred);
  }

  lemma {:induction false} RecordedAtLeast(rp: seq<bytes>, s: seq<bytes>)
    requires forall j :: 0 <= j < |rp| ==> |rp[j]| >= 33 && Count(s, RpHash(rp[j])) > 0
    ensures Recorded(rp, s) >= |rp|
  {
    if rp != [] {
      RecordedAtLeast(rp[..|rp| - 1], s);
    }
  }

  /** A record means a stored credential. */
  lemma RecordIsUsed(t: Tables, j: nat)
    requires Indexes(t) && j < SLOTS && t.rp[j] != []
    ensures Count(t.cred, RpHash(t.rp[j])) > 0
  {
    assert Indexed(t, RpHash(t.rp[j]));
  }

  /** While a credential slot is free, an RP slot is free too. */
  lemma RoomForRecord(t: Tables)
    requires Indexes(t) && FirstEmpty(t.cred) < SLOTS
    ensures FirstEmpty(t.rp) < SLOTS
  {
    if FirstEmpty(t.rp) == SLOTS {
      forall j | 0 <= j < SLOTS
        ensures |t.rp[j]| >= 33 && Count(t.cred, RpHash(t.rp[j])) > 0
      {
        RecordIsUsed(t, j);
      }
      RecordedAtLeast(t.rp, t.cred);
      EveryCredentialRecordedOnce(t);
      LiveBelow(t.cred, FirstEmpty(t.cred));
    }
  }

  /**
   * Store is all or nothing: the exit after the credential write, for a full RP table, is never
   * taken. A loadable credential is refused exactly when every slot is used and none matches.
   */
  lemma StoreAllOrNothing(v: Vault, t: Tables, id: bytes, h: Hash)
    requires Indexes(t)
    ensures Store(v, t, id, h).0 != Success ==> Store(v, t, id, h).1 == t
    ensures Load(v, id, h).Ok? ==>
      (Store(v, t, id, h).0 != Success <==>
        && (forall i :: 0 <= i < SLOTS ==> t.cred[i] != [])
        && (forall i :: 0 <= i < SLOTS ==> !Matches(v, t.cred[i], h, Load(v, id, h).value.UserId())))
  {
    if FirstEmpty(t.cred) < SLOTS {
      RoomForRecord(t);
    }
  }

  // ---------- the count bytes ----------

  /** The count bytes of all records, added up. */
  function CountBytes(rp: seq<bytes>): nat {
    if rp == [] then 0
    else CountBytes(rp[..|rp| - 1]) + (if rp[|rp| - 1] != [] then rp[|rp| - 1][0] else 0)
  }

  /** How many records stand for 256 credentials, whose count byte has wrapped to zero. */
  function Wrapped(rp: seq<bytes>, s: seq<bytes>): nat {
    if rp == [] then 0
    else
      var f := rp[|rp| - 1];
      Wrapped(rp[..|rp| - 1], s) + (if |f| >= 33 && Count(s, RpHash(f)) == SLOTS then 1 else 0)
  }

  lemma {:induction false} CountBytesMiss(rp: seq<bytes>, s: seq<bytes>)
    requires |s| == SLOTS
    requires forall j :: 0 <= j < |rp| && rp[j] != [] ==>
      |rp[j]| >= 33 && rp[j][0] == Count(s, RpHash(rp[j])) % 256
    ensures Recorded(rp, s) == CountBytes(rp) + SLOTS * Wrapped(rp, s)
  {
    if rp != [] {
      var f := rp[|rp| - 1];
      CountBytesMiss(rp[..|rp| - 1], s);
      if |f| >= 33 {
        CountAtMostLive(s, RpHash(f));
      }
    }
  }

  /**
   * The RP count bytes sum to the number of live credentials, short by 256 for an RP that holds all
   * 256 of them; and the one-byte total that getCredsMetadata reports is that sum's low byte.
   */
  lemma CountBytesAddUp(t: Tables)
    requires Indexes(t)
    ensures Live(t.cred) == CountBytes(t.rp) + SLOTS * Wrapped(t.rp, t.cred)
    ensures Byte(Live(t.cred)) == Byte(CountBytes(t.rp))
  {
    EveryCredentialRecordedOnce(t);
    forall j | 0 <= j < |t.rp| && t.rp[j] != []
      ensures t.rp[j][0] == Count(t.cred, RpHash(t.rp[j])) % 256
    {
      var h := RpHash(t.rp[j]);
      assert Indexed(t, h);
    }
    CountBytesMiss(t.rp, t.cred);
  }

  /** The credential table is full: 256 live files, which one byte reports as 0 existing and 256 remaining. */
  lemma {:induction false} MetadataExact(s: seq<bytes>)
    requires |s| == SLOTS
    ensures Byte(Live(s)) == Live(s) <==> exists i :: 0 <= i < SLOTS && s[i] == []
  {
    if i :| 0 <= i < SLOTS && s[i] == [] {
      LiveBelow(s, i);
    } else {
      AllLive(s);
    }
  }

  lemma {:induction false} AllLive(s: seq<bytes>)
    requires forall i :: 0 <= i < |s| ==> s[i] != []
    ensures Live(s) == |s|
  {
    if s != [] {
      AllLive(s[..|s| - 1]);
    }
  }

  // ---------- runs ----------

  datatype Command =
    | StoreCommand(id: bytes, h: Hash)
    | DeleteCommand(id: bytes)
    | UpdateCommand(id: bytes, u: Update)

  function Step(v: Vault, t: Tables, c: Command): (Status, Tables) {
    match c
    case StoreCommand(id, h) => Store(v, t, id, h)
    case DeleteCommand(id) => Delete(t, id)
    case UpdateCommand(id, u) => UpdateUser(v, t, id, u)
  }

  function Run(v: Vault, t: Tables, cs: seq<Command>): Tables {
    if cs == [] then t else Step(v, Run(v, t, cs[..|cs| - 1]), cs[|cs| - 1]).1
  }

  lemma StepAgrees(v: Vault, t: Tables, c: Command)
    requires Indexes(t)
    ensures Indexes(Step(v, t, c).1)
    ensures Agree(v, t) ==> Agree(v, Step(v, t, c).1)
    ensures Step(v, t, c).0 != Success ==> Step(v, t, c).1 == t
  {
    match c
    case StoreCommand(id, h) =>
      StoreAllOrNothing(v, t, id, h);
      if Store(v, t, id, h).0 == Success {
        StoreAgrees(v, t, id, h);
      }
    case DeleteCommand(id) =>
      DeleteAgrees(v, t, id);
    case UpdateCommand(id, u) =>
      UpdateAgrees(v, t, id, u);
  }

  /** Update-user ends in a store or changes nothing. */
  lemma UpdateAgrees(v: Vault, t: Tables, id: bytes, u: Update)
    requires Indexes(t)
    ensures Indexes(UpdateUser(v, t, id, u).1)
    ensures Agree(v, t) ==> Agree(v, UpdateUser(v, t, id, u).1)
    ensures UpdateUser(v, t, id, u).0 != Success ==> UpdateUser(v, t, id, u).1 == t
  {
    var m := FirstById(t.cred, id);
    if m < |t.cred| {
      var h := CredHash(t.cred[m]);
      var loaded := Load(v, t.cred[m][32..], h);
      if loaded.Ok? && Comparable(u.userId, loaded.value.UserId()) {
        var created := Create(v, Redraft(loaded.value, u), u.now, u.iv, u.tail);
        if created.Ok? {
          StoreAllOrNothing(v, t, created.value, h);
          if Store(v, t, created.value, h).0 == Success {
            StoreAgrees(v, t, created.value, h);
          }
        }
      }
    }
  }

  /** A run in which each command finds its own keys: the device key may come and go with the PIN. */
  function RunUnder(t: Tables, cs: seq<(Vault, Command)>): Tables {
    if cs == [] then t
    else
      var (v, c) := cs[|cs| - 1];
      Step(v, RunUnder(t, cs[..|cs| - 1]), c).1
  }

  /**
   * In every state that store, delete and update-user reach, the RP table indexes the credentials,
   * whatever keys the commands work with.
   */
  lemma {:induction false} RunIndexes(cs: seq<(Vault, Command)>)
    ensures Indexes(RunUnder(NOTHING, cs))
  {
    if cs == [] {
      NothingIndexes();
    } else {
      RunIndexes(cs[..|cs| - 1]);
      var (v, c) := cs[|cs| - 1];
      StepAgrees(v, RunUnder(NOTHING, cs[..|cs| - 1]), c);
    }
  }

  /** Under the same keys throughout, every stored credential loads, too. */
  lemma {:induction false} RunAgrees(v: Vault, cs: seq<Command>)
    ensures Agree(v, Run(v, NOTHING, cs))
  {
    if cs == [] {
      NothingIndexes();
    } else {
      RunAgrees(v, cs[..|cs| - 1]);
      StepAgrees(v, Run(v, NOTHING, cs[..|cs| - 1]), cs[|cs| - 1]);
    }
  }
}
