/**
 * The two resumable enumerations of credential management: RPs (subcommands 0x02 and 0x03) and the
 * credentials of one RP (0x04 and 0x05). Both cursors are pairs of one-byte counters.
 */
module ResidentEnumeration {
  import opened Bytes
  import opened SealedCredential
  import opened ResidentTables

  datatype Cursors = Cursors(rpCounter: byte, rpTotal: byte, credCounter: byte, credTotal: byte, credRp: Hash)

  datatype Reply =
    | Refused(status: Status)
    | RpReply(id: bytes, hash: bytes, total: Option<byte>)
    | CredReply(cred: Credential, total: Option<byte>)

  /** The elements that satisfy p, in order. */
  function Select(p: bytes -> bool, s: seq<bytes>): (r: seq<bytes>)
    ensures |r| <= |s|
  {
    if s == [] then []
    else Select(p, s[..|s| - 1]) + (if p(s[|s| - 1]) then [s[|s| - 1]] else [])
  }

  /** An RP file with data and a non-zero count byte. */
  predicate LiveRp(f: bytes) {
    f != [] && f[0] > 0
  }

  function LiveRps(t: Tables): (r: seq<bytes>)
    ensures |r| <= |t.rp|
  {
    Select(LiveRp, t.rp)
  }

  function OwnedBy(h: Hash): bytes -> bool {
    f => Carries(f, h)
  }

  function CredsOf(t: Tables, h: Hash): (r: seq<bytes>)
    ensures |r| <= |t.cred|
  {
    Select(OwnedBy(h), t.cred)
  }

  /**
   * The element at which a one-byte count of the selected elements, stepped before the comparison,
   * first equals n. At most 256 elements are selected, so n = 0 stands for the last of 256.
   */
  function Nth(s: seq<bytes>, n: byte): Option<bytes> {
    var i := Byte(n as int - 1);
    if i < |s| then Some(s[i]) else None
  }

  lemma NthIs(s: seq<bytes>, k: nat)
    requires k < |s| && k < 255
    ensures Nth(s, k + 1) == Some(s[k])
  {
  }

  /** The curves that `fido_load_key` knows. */
  predicate CurveKnown(curve: int) {
    Int32(curve) in {1, 2, 3, 4, 5, 8}
  }

  /** P-256 to X448, numbers 1 to 5 of section 13.1 of RFC 8152, and secp256k1, 8 in section 3.1 of RFC 8812. */
  lemma CurvesKnown(curve: int)
    requires -0x8000_0000 <= curve < 0x8000_0000
    ensures CurveKnown(curve) <==> 1 <= curve <= 5 || curve == 8
  {
  }

  // ---------- the subcommands, on the list of files they find ----------

  /** The RP id and the RP id hash in an RP file. */
  function RpReplyOf(f: bytes, total: Option<byte>): Reply {
    if |f| >= 33 then RpReply(f[33..], f[1..33], total) else RpReply([], [], total)
  }

  function RpBegin(s: seq<bytes>, c: Cursors): (Reply, Cursors) {
    if s == [] then (Refused(NoCredentials), c.(rpCounter := 1, rpTotal := 0))
    else (RpReplyOf(s[0], Some(Byte(|s|))), c.(rpCounter := 2, rpTotal := Byte(|s|)))
  }

  function RpNext(s: seq<bytes>, c: Cursors): (Reply, Cursors) {
    if c.rpCounter > c.rpTotal then (Refused(NotAllowed), c)
    else
      match Nth(s, c.rpCounter)
      case None => (Refused(NoCredentials), c)
      case Some(f) => (RpReplyOf(f, None), c.(rpCounter := Byte(c.rpCounter as int + 1)))
  }

  /** The credential id in a credential file. */
  function IdIn(f: bytes): bytes {
    if |f| >= 32 then f[32..] else []
  }

  /** Loads the credential at the cursor and steps past it. */
  function CredAt(v: Vault, c: Cursors, f: Option<bytes>, h: Hash, total: Option<byte>): (Reply, Cursors) {
    if f.None? then (Refused(NoCredentials), c)
    else
      var loaded := Load(v, IdIn(f.value), h);
      if loaded.Err? || !CurveKnown(loaded.value.curve) then (Refused(NotAllowed), c)
      else
        var c' := c.(credCounter := Byte(c.credCounter as int + 1));
        (CredReply(loaded.value, total), if c'.credCounter <= c'.credTotal then c'.(credRp := h) else c')
  }

  function CredBegin(v: Vault, s: seq<bytes>, c: Cursors, h: Hash): (Reply, Cursors) {
    CredAt(v, c.(credCounter := 1, credTotal := Byte(|s|)), Nth(s, 1), h, Some(Byte(|s|)))
  }

  /** Next credential, where s are the files of the RP that the cursor is on. */
  function CredNext(v: Vault, s: seq<bytes>, c: Cursors): (Reply, Cursors) {
    if c.credCounter > c.credTotal then (Refused(NotAllowed), c)
    else CredAt(v, c, Nth(s, c.credCounter), c.credRp, None)
  }

  lemma {:induction false} SelectAll(p: bytes -> bool, s: seq<bytes>, i: nat)
    requires i < |Select(p, s)|
    ensures p(Select(p, s)[i]) && Select(p, s)[i] in s
  {
    if i < |Select(p, s[..|s| - 1])| {
      SelectAll(p, s[..|s| - 1], i);
    }
  }

  lemma NthOfCreds(t: Tables, h: Hash, n: byte)
    requires Nth(CredsOf(t, h), n).Some?
    ensures Carries(Nth(CredsOf(t, h), n).value, h)
  {
    SelectAll(OwnedBy(h), t.cred, Byte(n as int - 1));
  }

  lemma NthOfRps(t: Tables, n: byte)
    requires WellFormed(t) && Nth(LiveRps(t), n).Some?
    ensures |Nth(LiveRps(t), n).value| >= 33
  {
    SelectAll(LiveRp, t.rp, Byte(n as int - 1));
  }

  // ---------- interleaved walks ----------

  /** The four enumeration commands. */
  datatype Walk = BeginRp | NextRp | BeginCred(h: Hash) | NextCred

  function StepWalk(v: Vault, t: Tables, c: Cursors, w: Walk): (Reply, Cursors) {
    match w
    case BeginRp => RpBegin(LiveRps(t), c)
    case NextRp => RpNext(LiveRps(t), c)
    case BeginCred(h) => CredBegin(v, CredsOf(t, h), c, h)
    case NextCred => CredNext(v, CredsOf(t, c.credRp), c)
  }

  /** The cursors after a walk. */
  function After(v: Vault, t: Tables, c: Cursors, ws: seq<Walk>): Cursors {
    if ws == [] then c
    else StepWalk(v, t, After(v, t, c, ws[..|ws| - 1]), ws[|ws| - 1]).1
  }

  /** The reply to command i of a walk. */
  function ReplyAt(v: Vault, t: Tables, c: Cursors, ws: seq<Walk>, i: nat): Reply
    requires i < |ws|
  {
    StepWalk(v, t, After(v, t, c, ws[..i]), ws[i]).0
  }

  /** How many commands of a walk are w. */
  function Steps(ws: seq<Walk>, w: Walk): nat {
    if ws == [] then 0 else Steps(ws[..|ws| - 1], w) + (if ws[|ws| - 1] == w then 1 else 0)
  }

  /** No enumeration of credentials begins in the walk. */
  predicate NoCredBegin(ws: seq<Walk>) {
    forall w <- ws :: !w.BeginCred?
  }

  /** k of the live RPs s have been reported. */
  predicate RpProgress(s: seq<bytes>, c: Cursors, k: nat) {
    c.rpTotal == |s| <= 254 && k <= |s| && c.rpCounter == k + 1
  }

  /** k of the credentials s of h have been reported. */
  predicate CredProgress(s: seq<bytes>, c: Cursors, h: Hash, k: nat) {
    && c.credTotal == |s| <= 254 && k <= |s| && c.credCounter == k + 1
    && (k < |s| ==> c.credRp == h)
  }

  predicate Reportable(v: Vault, f: bytes, h: Hash) {
    Load(v, IdIn(f), h).Ok? && CurveKnown(Load(v, IdIn(f), h).value.curve)
  }

  /** How many credentials come before the first that does not load or has an unknown curve. */
  function Reachable(v: Vault, s: seq<bytes>, h: Hash): (r: nat)
    ensures r <= |s|
    ensures forall i :: 0 <= i < r ==> Reportable(v, s[i], h)
    ensures r < |s| ==> !Reportable(v, s[r], h)
  {
    if s == [] || !Reportable(v, s[0], h) then 0
    else
      assert forall i :: 0 < i < |s| ==> s[i] == s[1..][i - 1];
      1 + Reachable(v, s[1..], h)
  }

  /** The reply to Next RP when k have been reported. */
  function RpExpected(s: seq<bytes>, k: nat): Reply {
    if k < |s| then RpReplyOf(s[k], None) else Refused(NotAllowed)
  }

  /** The reply to Next credential when k have been reported. */
  function CredExpected(v: Vault, s: seq<bytes>, h: Hash, k: nat): Reply {
    if k < Reachable(v, s, h) then
      assert Reportable(v, s[k], h);
      CredReply(Load(v, IdIn(s[k]), h).value, None)
    else Refused(NotAllowed)
  }

  lemma RpStep(s: seq<bytes>, c: Cursors, k: nat)
    requires RpProgress(s, c, k)
    ensures RpNext(s, c).0 == RpExpected(s, k)
    ensures RpProgress(s, RpNext(s, c).1, Min(k + 1, |s|))
  {
    if k < |s| {
      NthIs(s, k);
    }
  }

  /** The reply reports credential i, the first one together with the total. */
  predicate Reports(v: Vault, s: seq<bytes>, h: Hash, reply: Reply, i: nat)
    requires i < |s|
  {
    && Load(v, IdIn(s[i]), h).Ok?
    && reply == CredReply(Load(v, IdIn(s[i]), h).value, if i == 0 then Some(Byte(|s|)) else None)
  }

  lemma ReportableReports(v: Vault, s: seq<bytes>, c: Cursors, h: Hash, i: nat)
    requires i < |s| && Reportable(v, s[i], h)
    ensures var total := if i == 0 then Some(Byte(|s|)) else None;
      Reports(v, s, h, CredAt(v, c, Some(s[i]), h, total).0, i)
    ensures var (total, next) := (if i == 0 then Some(Byte(|s|)) else None, Byte(c.credCounter as int + 1));
      CredAt(v, c, Some(s[i]), h, total).1
        == c.(credCounter := next, credRp := if next <= c.credTotal then h else c.credRp)
  {
  }

  lemma UnreportableStops(v: Vault, c: Cursors, f: bytes, h: Hash, total: Option<byte>)
    requires !Reportable(v, f, h)
    ensures CredAt(v, c, Some(f), h, total).0 == Refused(NotAllowed)
  {
  }

  lemma CredStep(v: Vault, s: seq<bytes>, c: Cursors, h: Hash, k: nat)
    requires CredProgress(s, c, h, k) && k <= Reachable(v, s, h) && k < |s|
    ensures CredNext(v, s, c).0 == CredExpected(v, s, h, k)
    ensures CredProgress(s, CredNext(v, s, c).1, h, Min(k + 1, Reachable(v, s, h)))
  {
    NthIs(s, k);
    if k == Reachable(v, s, h) {
      UnreportableStops(v, c, s[k], h, None);
    } else if k > 0 {
      ReportableReports(v, s, c, h, k);
    }
  }

  /**
   * Next credential on the tables. A credential that cannot be reported stops the enumeration where
   * it is; once all are reported it no longer matters where the cursor points.
   */
  lemma CredStepOn(v: Vault, t: Tables, c: Cursors, h: Hash, k: nat)
    requires CredProgress(CredsOf(t, h), c, h, k) && k <= Reachable(v, CredsOf(t, h), h)
    ensures var (s, (reply, c')) := (CredsOf(t, h), CredNext(v, CredsOf(t, c.credRp), c));
      reply == CredExpected(v, s, h, k) && CredProgress(s, c', h, Min(k + 1, Reachable(v, s, h)))
  {
    if k < |CredsOf(t, h)| {
      CredStep(v, CredsOf(t, h), c, h, k);
    }
  }

  /** No command of one enumeration, Begin included, moves the cursor of the other. */
  lemma CursorsIndependent(v: Vault, t: Tables, c: Cursors, w: Walk)
    ensures var c' := StepWalk(v, t, c, w).1;
      && (w.BeginRp? || w.NextRp? ==>
            c'.credCounter == c.credCounter && c'.credTotal == c.credTotal && c'.credRp == c.credRp)
      && (w.BeginCred? || w.NextCred? ==> c'.rpCounter == c.rpCounter && c'.rpTotal == c.rpTotal)
  {
  }

  lemma {:induction false} RpProgressAfter(v: Vault, t: Tables, c: Cursors, ws: seq<Walk>, k: nat)
    requires RpProgress(LiveRps(t), c, k) && BeginRp !in ws
    ensures RpProgress(LiveRps(t), After(v, t, c, ws), Min(k + Steps(ws, NextRp), |LiveRps(t)|))
  {
    if ws != [] {
      var (before, w) := (ws[..|ws| - 1], ws[|ws| - 1]);
      var c' := After(v, t, c, before);
      RpProgressAfter(v, t, c, before, k);
      CursorsIndependent(v, t, c', w);
      RpStep(LiveRps(t), c', Min(k + Steps(before, NextRp), |LiveRps(t)|));
    }
  }

  lemma {:induction false} CredProgressAfter(v: Vault, t: Tables, c: Cursors, ws: seq<Walk>, h: Hash, k: nat)
    requires CredProgress(CredsOf(t, h), c, h, k) && k <= Reachable(v, CredsOf(t, h), h) && NoCredBegin(ws)
    ensures CredProgress(CredsOf(t, h), After(v, t, c, ws), h,
                         Min(k + Steps(ws, NextCred), Reachable(v, CredsOf(t, h), h)))
  {
    if ws != [] {
      var (before, w) := (ws[..|ws| - 1], ws[|ws| - 1]);
      var c' := After(v, t, c, before);
      CredProgressAfter(v, t, c, before, h, k);
      CursorsIndependent(v, t, c', w);
      CredStepOn(v, t, c', h, Min(k + Steps(before, NextCred), Reachable(v, CredsOf(t, h), h)));
    }
  }

  /**
   * An RP enumeration from its Begin on, with at most 254 live RPs, whatever enumerations of
   * credentials begin and go on in between: Begin reports the first live RP and their number, and
   * each Next RP the next one in slot order, until all are reported and it is NOT_ALLOWED.
   */
  lemma RpWalk(v: Vault, t: Tables, c: Cursors, ws: seq<Walk>, i: nat)
    requires 1 <= |LiveRps(t)| <= 254 && BeginRp !in ws && i < |ws| && ws[i] == NextRp
    ensures var (s, (reply, c')) := (LiveRps(t), StepWalk(v, t, c, BeginRp));
      && reply == RpReplyOf(s[0], Some(|s|))
      && ReplyAt(v, t, c', ws, i) == RpExpected(s, 1 + Steps(ws[..i], NextRp))
  {
    var (s, c') := (LiveRps(t), StepWalk(v, t, c, BeginRp).1);
    assert RpProgress(s, c', 1);
    RpProgressAfter(v, t, c', ws[..i], 1);
    RpStep(s, After(v, t, c', ws[..i]), Min(1 + Steps(ws[..i], NextRp), |s|));
  }

  /** What Begin credentials does when the first credential can be reported. */
  lemma CredBeginStarts(v: Vault, s: seq<bytes>, c: Cursors, h: Hash)
    requires 1 <= |s| <= 254 && Reachable(v, s, h) > 0
    ensures Load(v, IdIn(s[0]), h).Ok?
    ensures CredBegin(v, s, c, h).0 == CredReply(Load(v, IdIn(s[0]), h).value, Some(|s|))
    ensures CredProgress(s, CredBegin(v, s, c, h).1, h, 1)
  {
    assert Reportable(v, s[0], h);
  }

  /**
   * The same for the credentials of one RP: each Next credential reports the next one in slot order,
   * up to the first that does not load or has an unknown curve, which is refused. Later replies count
   * on the RP hash of the Begin.
   */
  lemma CredWalk(v: Vault, t: Tables, c: Cursors, ws: seq<Walk>, h: Hash, i: nat)
    requires |CredsOf(t, h)| <= 254 && Reachable(v, CredsOf(t, h), h) > 0
    requires NoCredBegin(ws) && i < |ws| && ws[i] == NextCred
    ensures var (s, (reply, c')) := (CredsOf(t, h), StepWalk(v, t, c, BeginCred(h)));
      && Load(v, IdIn(s[0]), h).Ok? && reply == CredReply(Load(v, IdIn(s[0]), h).value, Some(|s|))
      && ReplyAt(v, t, c', ws, i) == CredExpected(v, s, h, 1 + Steps(ws[..i], NextCred))
  {
    var c' := StepWalk(v, t, c, BeginCred(h)).1;
    CredBeginStarts(v, CredsOf(t, h), c, h);
    NoCredBeginBefore(ws, i);
    CredProgressAfter(v, t, c', ws[..i], h, 1);
    CredReplyNow(v, t, After(v, t, c', ws[..i]), h, 1 + Steps(ws[..i], NextCred));
  }

  lemma NoCredBeginBefore(ws: seq<Walk>, i: nat)
    requires NoCredBegin(ws) && i <= |ws|
    ensures NoCredBegin(ws[..i])
  {
  }

  lemma CredReplyNow(v: Vault, t: Tables, c: Cursors, h: Hash, k: nat)
    requires CredProgress(CredsOf(t, h), c, h, Min(k, Reachable(v, CredsOf(t, h), h)))
    ensures StepWalk(v, t, c, NextCred).0 == CredExpected(v, CredsOf(t, h), h, k)
  {
    CredStepOn(v, t, c, h, Min(k, Reachable(v, CredsOf(t, h), h)));
    CredExpectedMin(v, CredsOf(t, h), h, k);
  }

  /** From the first credential that cannot be reported on, nothing else is expected. */
  lemma CredExpectedMin(v: Vault, s: seq<bytes>, h: Hash, k: nat)
    ensures CredExpected(v, s, h, Min(k, Reachable(v, s, h))) == CredExpected(v, s, h, k)
  {
  }

  /** Element i of a selection stands at index `at` of the sequence, after the places of all earlier ones. */
  lemma {:induction false} SelectedAt(p: bytes -> bool, s: seq<bytes>, i: nat) returns (at: nat)
    requires i < |Select(p, s)|
    ensures at < |s| && s[at] == Select(p, s)[i] && p(s[at])
    ensures |Select(p, s[..at])| == i
  {
    at := |s| - 1;
    if i < |Select(p, s[..at])| {
      var n := at;
      at := SelectedAt(p, s[..n], i);
      assert s[..n][..at] == s[..at];
    }
  }

  lemma {:induction false} SelectsEach(p: bytes -> bool, s: seq<bytes>, at: nat) returns (i: nat)
    requires at < |s| && p(s[at])
    ensures i < |Select(p, s)| && Select(p, s)[i] == s[at]
  {
    if at == |s| - 1 {
      i := |Select(p, s)| - 1;
    } else {
      i := SelectsEach(p, s[..|s| - 1], at);
    }
  }

  lemma RecordByte(t: Tables, h: Hash, j: nat)
    requires Indexed(t, h) && j < |t.rp| && Records(t.rp[j], h)
    ensures Count(t.cred, h) > 0 && t.rp[j][0] == Count(t.cred, h) % 256
  {
  }

  lemma ReportedIsRp(t: Tables, h: Hash, i: nat)
    requires Indexes(t) && i < |LiveRps(t)| && Records(LiveRps(t)[i], h)
    ensures 0 < Count(t.cred, h) < SLOTS
  {
    var a := SelectedAt(LiveRp, t.rp, i);
    RecordByte(t, h, a);
    CountAtMostLive(t.cred, h);
  }

  lemma RpIsReported(t: Tables, h: Hash) returns (i: nat)
    requires Indexes(t) && 0 < Count(t.cred, h) < SLOTS
    ensures i < |LiveRps(t)| && Records(LiveRps(t)[i], h)
  {
    assert Indexed(t, h);
    i := SelectsEach(LiveRp, t.rp, FirstRecord(t.rp, h));
  }

  /** The reported RPs are those with 1 to 255 stored credentials. */
  lemma LiveRpsAreTheRps(t: Tables, h: Hash)
    requires Indexes(t)
    ensures (exists i :: 0 <= i < |LiveRps(t)| && Records(LiveRps(t)[i], h)) <==> 0 < Count(t.cred, h) < SLOTS
  {
    if i :| 0 <= i < |LiveRps(t)| && Records(LiveRps(t)[i], h) {
      ReportedIsRp(t, h, i);
    }
    if 0 < Count(t.cred, h) < SLOTS {
      var i := RpIsReported(t, h);
    }
  }

  /** No RP is reported twice. */
  lemma LiveRpsOnce(t: Tables, h: Hash, i: nat, k: nat)
    requires Indexes(t) && i < |LiveRps(t)| && k < |LiveRps(t)|
    requires Records(LiveRps(t)[i], h) && Records(LiveRps(t)[k], h)
    ensures i == k
  {
    assert Indexed(t, h);
    var a := SelectedAt(LiveRp, t.rp, i);
    var b := SelectedAt(LiveRp, t.rp, k);
    IndexMeaning(t, h);
  }

  /** The credentials enumerated for h are as many as its count. */
  lemma {:induction false} CredsOfCount(s: seq<bytes>, h: Hash)
    ensures |Select(OwnedBy(h), s)| == Count(s, h)
  {
    if s != [] {
      CredsOfCount(s[..|s| - 1], h);
    }
  }

  // ---------- whole enumerations ----------

  /** The replies to Begin RP and then n times Next RP. */
  function RpReplies(s: seq<bytes>, c: Cursors, n: nat): (r: (seq<Reply>, Cursors))
    ensures |r.0| == n + 1
  {
    if n == 0 then ([RpBegin(s, c).0], RpBegin(s, c).1)
    else
      var (replies, c') := RpReplies(s, c, n - 1);
      (replies + [RpNext(s, c').0], RpNext(s, c').1)
  }

  /** Every live RP once, in slot order, the total with the first; then NOT_ALLOWED. */
  ghost predicate CompleteRpEnumeration(s: seq<bytes>, replies: seq<Reply>)
    requires s != []
  {
    && |replies| == |s| + 1
    && replies[0] == RpReplyOf(s[0], Some(Byte(|s|)))
    && (forall i :: 1 <= i < |s| ==> replies[i] == RpReplyOf(s[i], None))
    && replies[|s|] == Refused(NotAllowed)
  }

  lemma RpNextAt(s: seq<bytes>, c: Cursors, k: nat)
    requires k < |s| <= 255 && c.rpTotal == |s| && c.rpCounter == k + 1
    ensures RpNext(s, c) == (RpReplyOf(s[k], None), c.(rpCounter := Byte(k + 2)))
  {
    NthIs(s, k);
  }

  lemma {:induction false} RpRepliesSoFar(s: seq<bytes>, c: Cursors, n: nat)
    requires 1 <= |s| <= 255 && n < |s|
    ensures var (replies, c') := RpReplies(s, c, n);
      && replies[0] == RpReplyOf(s[0], Some(Byte(|s|)))
      && (forall i :: 1 <= i <= n ==> replies[i] == RpReplyOf(s[i], None))
      && c'.rpTotal == |s| && c'.rpCounter == Byte(n + 2)
  {
    if n > 0 {
      RpRepliesSoFar(s, c, n - 1);
      RpNextAt(s, RpReplies(s, c, n - 1).1, n);
    }
  }

  /** With all of 255 live RPs reported, the counter has wrapped to 0 and finds no RP. */
  lemma RpNextAfterWrap(s: seq<bytes>, c: Cursors)
    requires |s| == 255 && c.rpTotal == 255 && c.rpCounter == 0
    ensures RpNext(s, c).0 == Refused(NoCredentials)
  {
  }

  /** The reply that closes an enumeration of 1 to 255 live RPs. */
  lemma RpClosingReply(s: seq<bytes>, c: Cursors)
    requires 1 <= |s| <= 255
    ensures RpReplies(s, c, |s|).0[|s|] == Refused(if |s| == 255 then NoCredentials else NotAllowed)
  {
    RpRepliesSoFar(s, c, |s| - 1);
    var c' := RpReplies(s, c, |s| - 1).1;
    assert RpReplies(s, c, |s|).0[|s|] == RpNext(s, c').0;
    if |s| == 255 {
      RpNextAfterWrap(s, c');
    }
  }

  /** The total of 256 live RPs is reported as 0, and the first Next is refused. */
  lemma RpTotalWraps(s: seq<bytes>, c: Cursors)
    requires |s| == 256
    ensures RpReplies(s, c, 0).0[0] == RpReplyOf(s[0], Some(0))
    ensures RpReplies(s, c, 1).0[1] == Refused(NotAllowed)
  {
    assert RpReplies(s, c, 0) == ([RpBegin(s, c).0], RpBegin(s, c).1);
  }

  /**
   * Begin RP and as many Next RP as there are live RPs give a complete enumeration exactly up to 254
   * live RPs. At 255 the counter wraps and the closing reply is NO_CREDENTIALS; at 256 the total
   * wraps to 0 and the first Next is refused.
   */
  lemma RpEnumerationExact(s: seq<bytes>, c: Cursors)
    requires 1 <= |s| <= SLOTS
    ensures CompleteRpEnumeration(s, RpReplies(s, c, |s|).0) <==> |s| <= 254
  {
    if |s| <= 255 {
      RpRepliesSoFar(s, c, |s| - 1);
      RpRepliesPrefixes(s, c, |s| - 1, |s|);
      RpClosingReply(s, c);
    } else {
      RpTotalWraps(s, c);
      RpRepliesPrefix(s, c, 1, |s|);
    }
  }

  lemma RpRepliesPrefixes(s: seq<bytes>, c: Cursors, m: nat, n: nat)
    requires n == m + 1
    ensures RpReplies(s, c, n).0[..m + 1] == RpReplies(s, c, m).0
  {
  }

  lemma {:induction false} RpRepliesPrefix(s: seq<bytes>, c: Cursors, m: nat, n: nat)
    requires m <= n
    ensures RpReplies(s, c, n).0[m] == RpReplies(s, c, m).0[m]
  {
    if m < n {
      RpRepliesPrefix(s, c, m, n - 1);
    }
  }

  // ---------- whole enumerations of credentials ----------

  /** The cursors after Begin credentials for h and then n times Next credential. */
  function CredCursor(v: Vault, t: Tables, c: Cursors, h: Hash, n: nat): Cursors {
    if n == 0 then StepWalk(v, t, c, BeginCred(h)).1
    else StepWalk(v, t, CredCursor(v, t, c, h, n - 1), NextCred).1
  }

  /** The reply to Begin credentials for h, or to Next credential number n after it. */
  function CredReplyAt(v: Vault, t: Tables, c: Cursors, h: Hash, n: nat): Reply {
    if n == 0 then StepWalk(v, t, c, BeginCred(h)).0
    else StepWalk(v, t, CredCursor(v, t, c, h, n - 1), NextCred).0
  }

  /** Begin and |s| times Next report every credential once, in slot order; the last Next is NOT_ALLOWED. */
  ghost predicate CompleteCredEnumeration(v: Vault, t: Tables, c: Cursors, h: Hash) {
    var s := CredsOf(t, h);
    && (forall i :: 0 <= i < |s| ==> Reports(v, s, h, CredReplyAt(v, t, c, h, i), i))
    && CredReplyAt(v, t, c, h, |s|) == Refused(NotAllowed)
  }

  /** The cursor when n + 1 of at most 255 credentials have been reported. */
  predicate Reported(s: seq<bytes>, h: Hash, c: Cursors, n: nat) {
    && c.credTotal == |s| <= 255 && n < |s| && c.credCounter == Byte(n + 2)
    && (c.credCounter <= c.credTotal ==> c.credRp == h)
  }

  lemma CredBeginAt(v: Vault, t: Tables, c: Cursors, h: Hash)
    requires 1 <= |CredsOf(t, h)| <= 255
    ensures var (s, (reply, c')) := (CredsOf(t, h), StepWalk(v, t, c, BeginCred(h)));
      if Reachable(v, s, h) == 0 then reply == Refused(NotAllowed)
      else Reports(v, s, h, reply, 0) && Reported(s, h, c', 0)
  {
    var s := CredsOf(t, h);
    var c0 := c.(credCounter := 1, credTotal := Byte(|s|));
    assert Nth(s, 1) == Some(s[0]);
    if Reachable(v, s, h) > 0 {
      ReportableReports(v, s, c0, h, 0);
    } else {
      UnreportableStops(v, c0, s[0], h, Some(Byte(|s|)));
    }
  }

  lemma CredGoesOnIn(v: Vault, s: seq<bytes>, c: Cursors, h: Hash, n: nat)
    requires Reported(s, h, c, n) && n + 1 < Reachable(v, s, h)
    ensures c.credRp == h
    ensures var (reply, c') := CredNext(v, s, c); Reports(v, s, h, reply, n + 1) && Reported(s, h, c', n + 1)
  {
    NthIs(s, n + 1);
    ReportableReports(v, s, c, h, n + 1);
  }

  /** Next credential when n + 1 have been reported and the next one can be. */
  lemma CredGoesOn(v: Vault, t: Tables, c: Cursors, h: Hash, n: nat)
    requires var s := CredsOf(t, h); Reported(s, h, c, n) && n + 1 < Reachable(v, s, h)
    ensures var (s, (reply, c')) := (CredsOf(t, h), StepWalk(v, t, c, NextCred));
      Reports(v, s, h, reply, n + 1) && Reported(s, h, c', n + 1)
  {
    CredGoesOnIn(v, CredsOf(t, h), c, h, n);
  }

  /** The credential at the cursor cannot be reported. */
  lemma CredStuck(v: Vault, s: seq<bytes>, c: Cursors, h: Hash, n: nat)
    requires Reported(s, h, c, n) && n + 1 < |s| && !Reportable(v, s[n + 1], h)
    ensures CredNext(v, s, c).0 == Refused(NotAllowed)
  {
    NthIs(s, n + 1);
    UnreportableStops(v, c, s[n + 1], h, None);
  }

  /** All credentials have been reported: with 255 of them the counter has wrapped to 0 and finds none. */
  lemma CredEnds(v: Vault, s: seq<bytes>, c: Cursors, h: Hash)
    requires s != [] && Reported(s, h, c, |s| - 1)
    ensures |s| < 255 ==> c.credCounter > c.credTotal
    ensures |s| == 255 ==> c.credRp == h && CredNext(v, s, c).0 == Refused(NoCredentials)
  {
    if |s| == 255 {
      assert Nth(s, 0) == None;
    }
  }

  lemma CredStaysOn(v: Vault, s: seq<bytes>, c: Cursors, h: Hash, n: nat)
    requires Reported(s, h, c, n) && n + 1 == Reachable(v, s, h)
    ensures CredNext(v, s, c).0 == Refused(if n + 1 == 255 then NoCredentials else NotAllowed)
  {
    if n + 1 < |s| {
      CredStuck(v, s, c, h, n);
    } else {
      CredEnds(v, s, c, h);
    }
  }

  /** Next credential when all that can be reached have been reported. */
  lemma CredStays(v: Vault, t: Tables, c: Cursors, h: Hash, n: nat)
    requires var s := CredsOf(t, h); Reported(s, h, c, n) && n + 1 == Reachable(v, s, h)
    ensures StepWalk(v, t, c, NextCred).0 == Refused(if n + 1 == 255 then NoCredentials else NotAllowed)
  {
    CredStaysOn(v, CredsOf(t, h), c, h, n);
  }

  lemma {:induction false} CredRepliesSoFar(v: Vault, t: Tables, c: Cursors, h: Hash, n: nat)
    requires 1 <= |CredsOf(t, h)| <= 255 && n < Reachable(v, CredsOf(t, h), h)
    ensures Reports(v, CredsOf(t, h), h, CredReplyAt(v, t, c, h, n), n)
    ensures Reported(CredsOf(t, h), h, CredCursor(v, t, c, h, n), n)
  {
    if n == 0 {
      CredBeginAt(v, t, c, h);
    } else {
      CredRepliesSoFar(v, t, c, h, n - 1);
      CredGoesOn(v, t, CredCursor(v, t, c, h, n - 1), h, n - 1);
    }
  }

  lemma CredCursorReported(v: Vault, t: Tables, c: Cursors, h: Hash, n: nat)
    requires 1 <= |CredsOf(t, h)| <= 255 && n < Reachable(v, CredsOf(t, h), h)
    ensures Reported(CredsOf(t, h), h, CredCursor(v, t, c, h, n), n)
  {
    CredRepliesSoFar(v, t, c, h, n);
  }

  /** The reply that comes after the last credential that can be reached. */
  lemma CredStops(v: Vault, t: Tables, c: Cursors, h: Hash, r: nat)
    requires 1 <= |CredsOf(t, h)| <= 255 && r == Reachable(v, CredsOf(t, h), h)
    ensures CredReplyAt(v, t, c, h, r) == Refused(if r == 255 then NoCredentials else NotAllowed)
  {
    if r == 0 {
      CredBeginAt(v, t, c, h);
    } else {
      CredCursorReported(v, t, c, h, r - 1);
      CredStays(v, t, CredCursor(v, t, c, h, r - 1), h, r - 1);
    }
  }

  /** The total of 256 credentials is reported as 0, and the first Next is refused. */
  lemma CredTotalWraps(v: Vault, t: Tables, c: Cursors, h: Hash)
    requires |CredsOf(t, h)| == 256
    ensures CredReplyAt(v, t, c, h, 1) == Refused(NotAllowed)
  {
    var c' := StepWalk(v, t, c, BeginCred(h)).1;
    assert c'.credTotal == 0 && c'.credCounter > 0;
    assert CredCursor(v, t, c, h, 0) == c';
  }

  /**
   * Begin credentials and as many Next as there are credentials give a complete enumeration exactly
   * when there are at most 254, and all of them load with a known curve.
   */
  lemma CredEnumerationExact(v: Vault, t: Tables, c: Cursors, h: Hash)
    requires 1 <= |CredsOf(t, h)| <= SLOTS
    ensures var s := CredsOf(t, h);
      CompleteCredEnumeration(v, t, c, h) <==> |s| <= 254 && Reachable(v, s, h) == |s|
  {
    var (s, r) := (CredsOf(t, h), Reachable(v, CredsOf(t, h), h));
    if |s| <= 255 {
      CredStops(v, t, c, h, r);
      assert r < |s| ==> !Reports(v, s, h, CredReplyAt(v, t, c, h, r), r);
      forall i | 0 <= i < r
        ensures Reports(v, s, h, CredReplyAt(v, t, c, h, i), i)
      {
        CredRepliesSoFar(v, t, c, h, i);
      }
    } else {
      CredTotalWraps(v, t, c, h);
      assert !Reports(v, s, h, CredReplyAt(v, t, c, h, 1), 1);
    }
  }
}
