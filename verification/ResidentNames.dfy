/**
 * The RP ids in the RP files: over every run of makeCredential, delete and update-user they are the ids
 * of the stored credentials, and so are those that the enumeration of RPs reports.
 */
module ResidentNames {
  import opened Bytes
  import opened SealedCredential
  import opened ResidentTables
  import opened ResidentTheorems
  import opened ResidentUsers
  import opened ResidentRuns
  import opened ResidentEnumeration

  /** f is free, or a credential that the authenticator made for one of these RPs. */
  ghost predicate MadeFor(v: Vault, f: bytes, ids: set<bytes>) {
    f == [] || exists d, now, iv, tail :: Made(v, f, d, now, iv, tail) && d.rpId in ids
  }

  /** f is free, or the record of one of these RPs: it holds the id, and its hash. */
  predicate NamesRp(v: Vault, f: bytes, ids: set<bytes>) {
    f == [] || (|f| >= 33 && f[33..] in ids && v.sha256(f[33..]) == f[1..33])
  }

  ghost predicate Named(v: Vault, t: Tables, ids: set<bytes>) {
    && (forall i :: 0 <= i < |t.cred| ==> MadeFor(v, t.cred[i], ids))
    && (forall j :: 0 <= j < |t.rp| ==> NamesRp(v, t.rp[j], ids))
  }

  /** A store of a credential just made for one of these RPs, any delete, or an update within the C types. */
  ghost predicate ForRps(v: Vault, c: ResidentTheorems.Command, ids: set<bytes>) {
    match c
    case StoreCommand(id, h) => MadeFor(v, h + id, ids)
    case DeleteCommand(_) => true
    case UpdateCommand(_, u) => TypedUpdate(u)
  }

  /** A made credential loads under its RP's hash, with its RP's id. */
  lemma MadeRp(v: Vault, f: bytes, ids: set<bytes>)
    requires v.Lawful() && MadeFor(v, f, ids) && f != []
    ensures Loadable(v, f)
    ensures var c := Load(v, f[32..], CredHash(f)).value; c.RpId() in ids && v.sha256(c.RpId()) == CredHash(f)
  {
    var d, now, iv, tail :| Made(v, f, d, now, iv, tail) && d.rpId in ids;
    MadeLoads(v, f, d, now, iv, tail);
  }

  lemma CountByteNames(v: Vault, f: bytes, b: byte, ids: set<bytes>)
    requires NamesRp(v, f, ids) && f != []
    ensures NamesRp(v, [b] + f[1..], ids)
  {
    var g := [b] + f[1..];
    assert g[33..] == f[33..] && g[1..33] == f[1..33];
  }

  lemma ReferenceNames(v: Vault, rp: seq<bytes>, h: Hash, rpId: bytes, ids: set<bytes>)
    requires (forall j :: 0 <= j < |rp| ==> NamesRp(v, rp[j], ids)) && Reference(rp, h, rpId).Some?
    requires rpId in ids && v.sha256(rpId) == h
    ensures var rp' := Reference(rp, h, rpId).value; forall j :: 0 <= j < |rp'| ==> NamesRp(v, rp'[j], ids)
  {
    var j := FirstRecord(rp, h);
    if j < |rp| {
      CountByteNames(v, rp[j], Byte(rp[j][0] as int + 1), ids);
    } else {
      var f := [1] + h + rpId;
      assert f[33..] == rpId && f[1..33] == h;
    }
  }

  lemma ReleaseNames(v: Vault, rp: seq<bytes>, h: Hash, ids: set<bytes>)
    requires forall j :: 0 <= j < |rp| ==> NamesRp(v, rp[j], ids)
    ensures var rp' := Release(rp, h); forall j :: 0 <= j < |rp'| ==> NamesRp(v, rp'[j], ids)
  {
    var j := FirstRecord(rp, h);
    if j < |rp| {
      CountByteNames(v, rp[j], Byte(rp[j][0] as int - 1), ids);
    }
  }

  lemma StoreNames(v: Vault, t: Tables, id: bytes, h: Hash, ids: set<bytes>)
    requires v.Lawful() && Named(v, t, ids) && MadeFor(v, h + id, ids) && Store(v, t, id, h).0 == Success
    ensures Named(v, Store(v, t, id, h).1, ids)
  {
    var i := StoreShape(v, t, id, h);
    MadeRp(v, h + id, ids);
    var rpId := Load(v, id, h).value.RpId();
    if Store(v, t, id, h).1.rp != t.rp {
      ReferenceNames(v, t.rp, h, rpId, ids);
    }
  }

  lemma DeleteNames(v: Vault, t: Tables, id: bytes, ids: set<bytes>)
    requires Named(v, t, ids)
    ensures Named(v, Delete(t, id).1, ids)
  {
    var m := FirstById(t.cred, id);
    if m < |t.cred| {
      ReleaseNames(v, t.rp, CredHash(t.cred[m]), ids);
    }
  }

  lemma UpdateNames(v: Vault, t: Tables, c: ResidentTheorems.Command, ids: set<bytes>)
    requires v.Lawful() && Named(v, t, ids) && c.UpdateCommand? && ForRps(v, c, ids) && UpdateFits(v, t, c)
    requires Step(v, t, c).0 == Success
    ensures Named(v, Step(v, t, c).1, ids)
  {
    var (f, u) := (t.cred[FirstById(t.cred, c.id)], c.u);
    var d, now, iv, tail :| Made(v, f, d, now, iv, tail) && d.rpId in ids;
    RedraftMade(v, f, u, d, now, iv, tail);
    var created := Create(v, Redraft(Load(v, f[32..], CredHash(f)).value, u), u.now, u.iv, u.tail);
    StoreNames(v, t, created.value, CredHash(f), ids);
  }

  /** In every reachable state each RP file holds the id of an RP that credentials were made for, and its hash. */
  lemma {:induction false} RunNames(v: Vault, cs: seq<ResidentTheorems.Command>, ids: set<bytes>)
    requires v.Lawful() && UpdatesFit(v, NOTHING, cs) && forall c <- cs :: ForRps(v, c, ids)
    ensures Named(v, Run(v, NOTHING, cs), ids)
  {
    if cs != [] {
      var (before, c) := (cs[..|cs| - 1], cs[|cs| - 1]);
      RunNames(v, before, ids);
      RunAgrees(v, before);
      var t := Run(v, NOTHING, before);
      StepAgrees(v, t, c);
      if Step(v, t, c).0 == Success {
        match c
        case StoreCommand(id, h) => StoreNames(v, t, id, h, ids);
        case DeleteCommand(id) => DeleteNames(v, t, id, ids);
        case UpdateCommand(_, _) => UpdateNames(v, t, c, ids);
      }
    }
  }

  /** No two of the RP ids have one hash. */
  ghost predicate Apart(v: Vault, ids: set<bytes>) {
    forall a, b :: a in ids && b in ids && v.sha256(a) == v.sha256(b) ==> a == b
  }

  /** The RP has stored credentials, and its id is that of every one of them. */
  ghost predicate IdOfAll(v: Vault, t: Tables, h: bytes, id: bytes) {
    && |h| == 32 && v.sha256(id) == h
    && (exists i :: 0 <= i < |t.cred| && Carries(t.cred[i], h))
    && (forall i :: 0 <= i < |t.cred| && Carries(t.cred[i], h) ==>
          Load(v, t.cred[i][32..], h).Ok? && Load(v, t.cred[i][32..], h).value.RpId() == id)
  }

  /** In every reachable state the id in an RP file is the RP id of each stored credential of that RP. */
  lemma RecordsName(v: Vault, cs: seq<ResidentTheorems.Command>, ids: set<bytes>, j: nat)
    requires v.Lawful() && UpdatesFit(v, NOTHING, cs) && (forall c <- cs :: ForRps(v, c, ids)) && Apart(v, ids)
    requires var t := Run(v, NOTHING, cs); j < |t.rp| && t.rp[j] != []
    ensures var t := Run(v, NOTHING, cs);
      |t.rp[j]| >= 33 && IdOfAll(v, t, t.rp[j][1..33], t.rp[j][33..])
  {
    var t := Run(v, NOTHING, cs);
    RunNames(v, cs, ids);
    RunAgrees(v, cs);
    var h: Hash := t.rp[j][1..33];
    assert Records(t.rp[j], h);
    IndexMeaning(t, h);
    forall i | 0 <= i < |t.cred| && Carries(t.cred[i], h)
      ensures Load(v, t.cred[i][32..], h).Ok? && Load(v, t.cred[i][32..], h).value.RpId() == t.rp[j][33..]
    {
      MadeRp(v, t.cred[i], ids);
    }
  }

  /** Every live RP file names the RP of its credentials. */
  ghost predicate LiveNamed(v: Vault, t: Tables) {
    forall f :: f in LiveRps(t) ==> |f| >= 33 && IdOfAll(v, t, f[1..33], f[33..])
  }

  lemma RunLiveNamed(v: Vault, cs: seq<ResidentTheorems.Command>, ids: set<bytes>)
    requires v.Lawful() && UpdatesFit(v, NOTHING, cs) && (forall c <- cs :: ForRps(v, c, ids)) && Apart(v, ids)
    ensures LiveNamed(v, Run(v, NOTHING, cs))
  {
    var t := Run(v, NOTHING, cs);
    forall f | f in LiveRps(t)
      ensures |f| >= 33 && IdOfAll(v, t, f[1..33], f[33..])
    {
      var k :| 0 <= k < |LiveRps(t)| && LiveRps(t)[k] == f;
      var j := SelectedAt(LiveRp, t.rp, k);
      RecordsName(v, cs, ids, j);
    }
  }

  /** The reply reports an RP by the id of its credentials and its hash; it is the RP of file f. */
  ghost predicate ReportsRp(v: Vault, t: Tables, reply: Reply, f: bytes) {
    reply.RpReply? && IdOfAll(v, t, reply.hash, reply.id) && Records(f, reply.hash)
  }

  /**
   * In every reachable state, the enumeration of RPs reports each RP by the id of its credentials and
   * its hash: Begin the first live RP, and the Next that comes after k replies live RP number k.
   */
  lemma RpWalkNames(v: Vault, cs: seq<ResidentTheorems.Command>, ids: set<bytes>, c: Cursors, ws: seq<Walk>, i: nat)
    requires v.Lawful() && UpdatesFit(v, NOTHING, cs) && (forall c <- cs :: ForRps(v, c, ids)) && Apart(v, ids)
    requires |LiveRps(Run(v, NOTHING, cs))| <= 254 && BeginRp !in ws && i < |ws| && ws[i] == NextRp
    requires 1 + Steps(ws[..i], NextRp) < |LiveRps(Run(v, NOTHING, cs))|
    ensures var t := Run(v, NOTHING, cs);
      var (s, (first, c')) := (LiveRps(t), StepWalk(v, t, c, BeginRp));
      && ReportsRp(v, t, first, s[0])
      && ReportsRp(v, t, ReplyAt(v, t, c', ws, i), s[1 + Steps(ws[..i], NextRp)])
  {
    var t := Run(v, NOTHING, cs);
    var (s, (first, c'), k) := (LiveRps(t), StepWalk(v, t, c, BeginRp), 1 + Steps(ws[..i], NextRp));
    var next := ReplyAt(v, t, c', ws, i);
    assert first == RpReplyOf(s[0], Some(|s|)) && next == RpReplyOf(s[k], None) by {
      RpWalk(v, t, c, ws, i);
    }
    LiveReply(v, cs, ids, 0, first, Some(|s|));
    LiveReply(v, cs, ids, k, next, None);
  }

  lemma LiveReply(v: Vault, cs: seq<ResidentTheorems.Command>, ids: set<bytes>, k: nat, reply: Reply,
                  total: Option<byte>)
    requires v.Lawful() && UpdatesFit(v, NOTHING, cs) && (forall c <- cs :: ForRps(v, c, ids)) && Apart(v, ids)
    requires var s := LiveRps(Run(v, NOTHING, cs)); k < |s| && reply == RpReplyOf(s[k], total)
    ensures ReportsRp(v, Run(v, NOTHING, cs), reply, LiveRps(Run(v, NOTHING, cs))[k])
  {
    RunLiveNamed(v, cs, ids);
  }
}
