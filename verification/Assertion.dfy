/**
 * Which credentials an assertion is made with, and in which order getNextAssertion hands out the rest
 * (sections 6.2 and 6.3 of CTAP 2.1).
 */
module Assertion {
  import opened Bytes
  import opened SealedCredential
  import opened ResidentTables

  const MAX_LIST: nat := 16
  const UINT32: nat := 0x1_0000_0000
  const NEXT_LIMIT: nat := 30 * 1000
  const UV_OPTIONAL_WITH_LIST: nat := 2
  const UV_REQUIRED: nat := 3
  const PUBLIC_KEY: bytes := Ascii("public-key")

  /** An entry of the allow list; either part may be missing. */
  datatype Descriptor = Descriptor(kind: Option<bytes>, id: Option<bytes>)

  // ---------- candidates ----------

  /** What one credential file adds: nothing if it is of another RP or does not load. */
  function Resident(v: Vault, f: bytes, h: Hash): (r: seq<Credential>)
    ensures |r| <= 1
  {
    if Carries(f, h) && Load(v, f[32..], h).Ok? then [Load(v, f[32..], h).value] else []
  }

  /** The credentials of h in a table of resident credentials, in slot order. */
  function Residents(v: Vault, s: seq<bytes>, h: Hash): (r: seq<Credential>)
    ensures |r| <= |s|
  {
    if s == [] then []
    else
      Residents(v, s[..|s| - 1], h) + Resident(v, s[|s| - 1], h)
  }

  /** What one entry of the allow list adds: nothing if it is of another type or does not load. */
  function AddedBy(v: Vault, d: Descriptor, h: Hash): (r: seq<Credential>)
    requires d.kind.Some? && d.id.Some?
    ensures |r| <= 1
  {
    if CString(d.kind.value) == PUBLIC_KEY && Load(v, d.id.value, h).Ok? then [Load(v, d.id.value, h).value] else []
  }

  /** The credentials an allow list names. */
  function Allowed(v: Vault, l: seq<Descriptor>, h: Hash): (r: Result<seq<Credential>>)
    ensures r.Ok? ==> |r.value| <= |l|
    ensures r.Err? ==> r.error == MissingParameter
  {
    if l == [] then Ok([])
    else
      var before :- Allowed(v, l[..|l| - 1], h);
      var d := l[|l| - 1];
      if d.kind.None? || d.id.None? then Err(MissingParameter) else Ok(before + AddedBy(v, d, h))
  }

  function Take(s: seq<Credential>, n: nat): (r: seq<Credential>)
    ensures |r| == if |s| < n then |s| else n
  {
    if |s| <= n then s else s[..n]
  }

  /** With an allow list, what it names; without, the first 16 resident credentials of the RP. */
  function Candidates(v: Vault, l: seq<Descriptor>, table: seq<bytes>, h: Hash): (r: Result<seq<Credential>>)
    ensures r.Ok? && |l| <= MAX_LIST ==> |r.value| <= MAX_LIST
  {
    if l != [] then Allowed(v, l, h) else Ok(Take(Residents(v, table, h), MAX_LIST))
  }

  /** credProtect lets the credential be used: with user verification always, else by level and by how it was named. */
  predicate Eligible(c: Credential, verified: bool, resident: bool) {
    || c.extensions.None?
    || verified
    || !(c.extensions.value.credProtect == UV_REQUIRED
         || (c.extensions.value.credProtect == UV_OPTIONAL_WITH_LIST && resident))
  }

  function EligibleOf(s: seq<Credential>, verified: bool, resident: bool): (r: seq<Credential>)
    ensures |r| <= |s|
  {
    if s == [] then []
    else
      EligibleOf(s[..|s| - 1], verified, resident)
      + (if Eligible(s[|s| - 1], verified, resident) then [s[|s| - 1]] else [])
  }

  /**
   * Section 12.1 of CTAP 2.1: level 3 asks for user verification always, level 2 unless the platform
   * named the credential, and any other level never.
   */
  predicate Permitted(c: Credential, verified: bool, named: bool) {
    c.extensions.Some? ==>
      && (c.extensions.value.credProtect == 3 ==> verified)
      && (c.extensions.value.credProtect == 2 ==> verified || named)
  }

  /** Credential c is kept as often as it was there when its level permits it, and not at all otherwise. */
  lemma {:induction false} EligibleExact(s: seq<Credential>, verified: bool, resident: bool, c: Credential)
    ensures multiset(EligibleOf(s, verified, resident))[c]
      == if Permitted(c, verified, !resident) then multiset(s)[c] else 0
    ensures c in EligibleOf(s, verified, resident) <==> c in s && Permitted(c, verified, !resident)
  {
    if s != [] {
      assert s == s[..|s| - 1] + [s[|s| - 1]];
      EligibleExact(s[..|s| - 1], verified, resident, c);
    }
  }

  /**
   * Where every stored credential loads, the resident candidates are exactly the credentials of the RP:
   * as many as are counted, and the one in slot i stands where the slots before it put it.
   */
  lemma {:induction false} ResidentsExact(v: Vault, s: seq<bytes>, h: Hash)
    requires forall i :: 0 <= i < |s| ==> s[i] == [] || Loadable(v, s[i])
    ensures |Residents(v, s, h)| == Count(s, h)
    ensures forall i :: 0 <= i < |s| && Carries(s[i], h) ==>
      Count(s[..i], h) < Count(s, h) && Load(v, s[i][32..], h) == Ok(Residents(v, s, h)[Count(s[..i], h)])
  {
    if s != [] {
      ResidentsExact(v, s[..|s| - 1], h);
      forall i | 0 <= i < |s| && Carries(s[i], h)
        ensures Count(s[..i], h) < Count(s, h)
        ensures Load(v, s[i][32..], h) == Ok(Residents(v, s, h)[Count(s[..i], h)])
      {
        PlaceInNext(v, s, h, i);
      }
    }
  }

  /** One more file leaves the places of those before it. */
  lemma PlaceInNext(v: Vault, s: seq<bytes>, h: Hash, i: nat)
    requires i < |s| && Carries(s[i], h) && Loadable(v, s[i])
    requires var t := s[..|s| - 1];
      |Residents(v, t, h)| == Count(t, h)
      && (i < |t| ==> Count(t[..i], h) < Count(t, h)
                      && Load(v, t[i][32..], h) == Ok(Residents(v, t, h)[Count(t[..i], h)]))
    ensures Count(s[..i], h) < Count(s, h) && Count(s[..i], h) < |Residents(v, s, h)|
    ensures Load(v, s[i][32..], h) == Ok(Residents(v, s, h)[Count(s[..i], h)])
  {
    var t := s[..|s| - 1];
    if i < |t| {
      assert t[..i] == s[..i] && t[i] == s[i];
    }
  }

  /** The entry names a credential of h: it has the type "public-key", and an id that loads. */
  predicate Names(v: Vault, d: Descriptor, h: Hash) {
    d.kind.Some? && d.id.Some? && CString(d.kind.value) == Ascii("public-key") && Load(v, d.id.value, h).Ok?
  }

  /** How many entries name a credential of h. */
  function Named(v: Vault, l: seq<Descriptor>, h: Hash): nat {
    if l == [] then 0 else Named(v, l[..|l| - 1], h) + (if Names(v, l[|l| - 1], h) then 1 else 0)
  }

  /**
   * An allow list is refused exactly when some entry lacks a part. Otherwise its candidates are the
   * credentials that it names: as many, and that of entry i where the entries before it put it.
   */
  lemma {:induction false} AllowedExact(v: Vault, l: seq<Descriptor>, h: Hash)
    ensures Allowed(v, l, h).Err? <==> exists d :: d in l && (d.kind.None? || d.id.None?)
    ensures Allowed(v, l, h).Ok? ==>
      && |Allowed(v, l, h).value| == Named(v, l, h)
      && forall i :: 0 <= i < |l| && Names(v, l[i], h) ==>
           Named(v, l[..i], h) < Named(v, l, h)
           && Load(v, l[i].id.value, h) == Ok(Allowed(v, l, h).value[Named(v, l[..i], h)])
  {
    if l != [] {
      var t := l[..|l| - 1];
      AllowedExact(v, t, h);
      assert l == t + [l[|l| - 1]];
      if Allowed(v, l, h).Ok? {
        forall i | 0 <= i < |l| && Names(v, l[i], h)
          ensures Named(v, l[..i], h) < Named(v, l, h)
          ensures Load(v, l[i].id.value, h) == Ok(Allowed(v, l, h).value[Named(v, l[..i], h)])
        {
          if i < |t| {
            assert t[..i] == l[..i] && t[i] == l[i];
          }
        }
      }
    }
  }

  /** Nothing but what the list names is a candidate. */
  lemma {:induction false} AllowedOnly(v: Vault, l: seq<Descriptor>, h: Hash, c: Credential)
    requires Allowed(v, l, h).Ok?
    ensures c in Allowed(v, l, h).value <==> exists d :: d in l && Names(v, d, h) && Load(v, d.id.value, h) == Ok(c)
  {
    if l != [] {
      var (t, d) := (l[..|l| - 1], l[|l| - 1]);
      AllowedOnly(v, t, h, c);
      assert forall e :: e in l <==> e in t || e == d by {
        assert l == t + [d];
      }
      AddedOnly(v, d, h, c);
      assert c in Allowed(v, l, h).value <==> c in Allowed(v, t, h).value || c in AddedBy(v, d, h);
    }
  }

  lemma AddedOnly(v: Vault, d: Descriptor, h: Hash, c: Credential)
    requires d.kind.Some? && d.id.Some?
    ensures c in AddedBy(v, d, h) <==> Names(v, d, h) && Load(v, d.id.value, h) == Ok(c)
  {
  }

  // ---------- the in-place filter and sort ----------

  /** A slot of the `creds` array; a freed one is not present. */
  datatype Slot = Slot(present: bool, cred: Credential)

  function Creds(s: seq<Slot>): (r: seq<Credential>)
    ensures |r| == |s|
    ensures forall i :: 0 <= i < |s| ==> r[i] == s[i].cred
  {
    seq(|s|, i requires 0 <= i < |s| => s[i].cred)
  }

  /** The credProtect loop: frees what is not eligible and moves the rest to the front. */
  method FilterInPlace(creds: array<Slot>, len: nat, verified: bool, resident: bool, ghost found: seq<Credential>)
    returns (n: nat)
    requires len <= creds.Length && creds[..len] == Slots(found)
    modifies creds
    ensures n <= len && creds[..n] == Slots(EligibleOf(found, verified, resident))
  {
    n := 0;
    assert forall k :: 0 <= k < len ==> creds[k] == creds[..len][k];
    for i := 0 to len
      invariant n <= i
      invariant creds[..n] == Slots(EligibleOf(found[..i], verified, resident))
      invariant forall k :: i <= k < len ==> creds[k] == Slot(true, found[k])
    {
      EligibleNext(found, i, verified, resident);
      n := FilterOne(creds, i, n, verified, resident);
    }
    assert found[..len] == found;
  }

  /** One round of the credProtect loop. */
  method FilterOne(creds: array<Slot>, i: nat, n: nat, verified: bool, resident: bool) returns (n': nat)
    requires n <= i < creds.Length && creds[i].present
    modifies creds
    ensures n <= n' <= i + 1
    ensures creds[..n'] == old(creds[..n])
      + (if Eligible(old(creds[i].cred), verified, resident) then [old(creds[i])] else [])
    ensures forall k :: i < k < creds.Length ==> creds[k] == old(creds[k])
  {
    n' := n;
    if !Eligible(creds[i].cred, verified, resident) {
      creds[i] := creds[i].(present := false);
    } else {
      if n != i {
        creds[n] := creds[i];
      }
      n' := n + 1;
    }
  }

  /** Present slots. */
  function Slots(s: seq<Credential>): (r: seq<Slot>)
    ensures |r| == |s|
    ensures forall i :: 0 <= i < |s| ==> r[i] == Slot(true, s[i])
  {
    seq(|s|, i requires 0 <= i < |s| => Slot(true, s[i]))
  }

  lemma CredsOfSlots(s: seq<Credential>)
    ensures Creds(Slots(s)) == s
  {
  }

  lemma EligibleNext(s: seq<Credential>, i: nat, verified: bool, resident: bool)
    requires i < |s|
    ensures EligibleOf(s[..i + 1], verified, resident)
      == EligibleOf(s[..i], verified, resident) + (if Eligible(s[i], verified, resident) then [s[i]] else [])
  {
    assert s[..i + 1][..i] == s[..i];
  }

  /** The sort's exchange of places i and j. */
  function Exchange(s: seq<Slot>, i: nat, j: nat): (r: seq<Slot>)
    requires i < j < |s|
    ensures |r| == |s|
  {
    if s[j].cred.creation > s[i].cred.creation then s[i := s[j]][j := s[i]] else s
  }

  /** The inner loop from j on: the newest of the rest ends up at i. */
  function Pass(s: seq<Slot>, i: nat, j: nat): (r: seq<Slot>)
    requires i < j <= |s|
    ensures |r| == |s|
    decreases |s| - j
  {
    if j == |s| then s else Pass(Exchange(s, i, j), i, j + 1)
  }

  /** The outer loop from i on. */
  function SortFrom(s: seq<Slot>, i: nat): (r: seq<Slot>)
    requires i <= |s|
    ensures |r| == |s|
    decreases |s| - i
  {
    if i == |s| then s else SortFrom(Pass(s, i, i + 1), i + 1)
  }

  /** The exchange sort, newest first. */
  method SortInPlace(creds: array<Slot>, n: nat)
    requires n <= creds.Length
    modifies creds
    ensures creds[..n] == SortFrom(old(creds[..n]), 0)
  {
    for i := 0 to n
      invariant SortFrom(creds[..n], i) == SortFrom(old(creds[..n]), 0)
    {
      ghost var before := creds[..n];
      for j := i + 1 to n
        invariant Pass(creds[..n], i, j) == Pass(before, i, i + 1)
      {
        ghost var s := creds[..n];
        if creds[j].cred.creation > creds[i].cred.creation {
          creds[i], creds[j] := creds[j], creds[i];
        }
        assert creds[..n] == Exchange(s, i, j);
      }
    }
  }

  lemma SwapKeeps(s: seq<Credential>, i: nat, j: nat)
    requires i < j < |s|
    ensures multiset(s[i := s[j]][j := s[i]]) == multiset(s)
  {
  }

  lemma ExchangeKeeps(s: seq<Slot>, i: nat, j: nat)
    requires i < j < |s|
    ensures multiset(Creds(Exchange(s, i, j))) == multiset(Creds(s))
  {
    if s[j].cred.creation > s[i].cred.creation {
      assert Creds(Exchange(s, i, j)) == Creds(s)[i := s[j].cred][j := s[i].cred];
      SwapKeeps(Creds(s), i, j);
    }
  }

  lemma {:induction false} PassKeeps(s: seq<Slot>, i: nat, j: nat)
    requires i < j <= |s|
    ensures multiset(Creds(Pass(s, i, j))) == multiset(Creds(s))
    decreases |s| - j
  {
    if j < |s| {
      ExchangeKeeps(s, i, j);
      var s' := Exchange(s, i, j);
      PassKeeps(s', i, j + 1);
      assert Pass(s, i, j) == Pass(s', i, j + 1);
    }
  }

  /** Nothing in s from place lo up to hi is newer than m. */
  predicate Within(s: seq<Slot>, lo: nat, hi: nat, m: nat)
    requires hi <= |s|
  {
    forall b :: lo <= b < hi ==> s[b].cred.creation <= m
  }

  /** A pass leaves what is before i, and brings a newest of the rest to i. */
  lemma {:induction false} PassSelects(s: seq<Slot>, i: nat, j: nat)
    requires i < j <= |s| && Within(s, i + 1, j, s[i].cred.creation)
    ensures var r := Pass(s, i, j);
      r[..i] == s[..i] && Within(r, i + 1, |s|, r[i].cred.creation)
    decreases |s| - j
  {
    if j < |s| {
      var s' := Exchange(s, i, j);
      assert Within(s', i + 1, j + 1, s'[i].cred.creation);
      PassSelects(s', i, j + 1);
      assert Pass(s, i, j) == Pass(s', i, j + 1);
    }
  }

  /** A bound on everything from i on survives a pass. */
  lemma {:induction false} PassBounded(s: seq<Slot>, i: nat, j: nat, m: nat)
    requires i < j <= |s| && Within(s, i, |s|, m)
    ensures Within(Pass(s, i, j), i, |s|, m)
    decreases |s| - j
  {
    if j < |s| {
      PassBounded(Exchange(s, i, j), i, j + 1, m);
    }
  }

  /** The places before i are in order, and nothing later is newer than any of them. */
  predicate SortedTo(s: seq<Slot>, i: nat)
    requires i <= |s|
  {
    forall a :: 0 <= a < i ==> Within(s, a + 1, |s|, s[a].cred.creation)
  }

  lemma PassSorts(s: seq<Slot>, i: nat)
    requires i < |s| && SortedTo(s, i)
    ensures SortedTo(Pass(s, i, i + 1), i + 1)
  {
    var r := Pass(s, i, i + 1);
    PassSelects(s, i, i + 1);
    forall a | 0 <= a < i
      ensures Within(r, a + 1, |s|, r[a].cred.creation)
    {
      assert r[a] == r[..i][a] == s[a];
      PassBounded(s, i, i + 1, s[a].cred.creation);
      forall b | a < b < i
        ensures r[b] == s[b]
      {
        assert r[b] == r[..i][b];
      }
    }
  }

  lemma {:induction false} SortFromSorts(s: seq<Slot>, i: nat)
    requires i <= |s| && SortedTo(s, i)
    ensures SortedTo(SortFrom(s, i), |s|) && multiset(Creds(SortFrom(s, i))) == multiset(Creds(s))
    decreases |s| - i
  {
    if i < |s| {
      PassSorts(s, i);
      PassKeeps(s, i, i + 1);
      SortFromSorts(Pass(s, i, i + 1), i + 1);
    }
  }

  // ---------- order ----------

  predicate Descending(s: seq<Credential>) {
    forall i, j :: 0 <= i < j < |s| ==> s[i].creation >= s[j].creation
  }

  /** The order in which credentials are handed out. */
  function Ranked(s: seq<Credential>): (r: seq<Credential>)
    ensures |r| == |s|
  {
    Creds(SortFrom(Slots(s), 0))
  }

  /** Every credential once, the newest first. */
  lemma RankedInOrder(s: seq<Credential>)
    ensures multiset(Ranked(s)) == multiset(s) && Descending(Ranked(s))
  {
    var sorted := SortFrom(Slots(s), 0);
    SortFromSorts(Slots(s), 0);
    CredsOfSlots(s);
    forall i, j | 0 <= i < j < |s|
      ensures Ranked(s)[i].creation >= Ranked(s)[j].creation
    {
      assert Within(sorted, i + 1, |s|, sorted[i].cred.creation);
    }
  }

  // ---------- the session that getNextAssertion works on ----------

  datatype Session = Session(creds: seq<Credential>, counter: byte, number: byte, timer: nat)

  const CLEARED := Session([], 0, 0, 0)

  predicate SoundSession(s: Session) {
    s.number <= |s.creds| <= MAX_LIST && s.timer < UINT32
  }

  /** More than 30 seconds since the last assertion, in 32-bit milliseconds. */
  predicate Expired(timer: nat, now: nat) {
    (timer + NEXT_LIMIT) % UINT32 < now
  }

  datatype Reply = Refused(status: Status) | Asserted(cred: Credential, total: Option<byte>)

  /**
   * getAssertion: `denied` stands for failing user presence, `failure` for what may fail in making the
   * response. A session is set up only for several credentials with user presence.
   */
  function Assert(s: Session, candidates: Result<seq<Credential>>, verified: bool, resident: bool, up: bool,
                  denied: Option<Status>, failure: Option<Status>, now: nat): (Reply, Session)
    requires candidates.Ok? ==> |candidates.value| <= MAX_LIST
  {
    if candidates.Err? then (Refused(candidates.error), s)
    else
      var eligible := EligibleOf(candidates.value, verified, resident);
      if eligible == [] then (Refused(NoCredentials), s) else Respond(s, eligible, up, denied, failure, now)
  }

  function Respond(s: Session, eligible: seq<Credential>, up: bool, denied: Option<Status>, failure: Option<Status>,
                   now: nat): (Reply, Session)
    requires 0 < |eligible| <= MAX_LIST
  {
    var ranked := Ranked(eligible);
    if up && denied.Some? then (Refused(denied.value), s)
    else
      (if failure.Some? then Refused(failure.value)
       else Asserted(ranked[0], if |ranked| > 1 then Some(|ranked|) else None),
       if up && |ranked| > 1 then Session(ranked, 1, |ranked|, now) else s)
  }

  function Next(s: Session, failure: Option<Status>, now: nat): (Reply, Session)
    requires SoundSession(s)
  {
    if s.counter >= s.number || Expired(s.timer, now) then (Refused(NotAllowed), CLEARED)
    else if failure.Some? then (Refused(failure.value), CLEARED)
    else
      (Asserted(s.creds[s.counter], None),
       if s.counter + 1 == s.number then CLEARED else s.(counter := s.counter + 1, timer := now))
  }

  lemma NextSound(s: Session, failure: Option<Status>, now: nat)
    requires SoundSession(s) && now < UINT32
    ensures SoundSession(Next(s, failure, now).1)
  {
  }

  /** The replies to getNextAssertion at the given times, none failing on its own. */
  function Replies(s: Session, times: seq<nat>): (r: seq<Reply>)
    requires SoundSession(s) && forall i :: 0 <= i < |times| ==> times[i] < UINT32
    ensures |r| == |times|
    decreases |times|
  {
    if times == [] then []
    else
      NextSound(s, None, times[0]);
      [Next(s, None, times[0]).0] + Replies(Next(s, None, times[0]).1, times[1..])
  }

  /** Each time comes within the limit of the one before. */
  predicate Timely(timer: nat, times: seq<nat>): (b: bool)
    ensures b ==> forall i :: 0 <= i < |times| ==> times[i] < UINT32
    decreases |times|
  {
    times == [] || (times[0] < UINT32 && !Expired(timer, times[0]) && Timely(times[0], times[1..]))
  }

  /** The reply with the credential at place k of those handed out, a refusal when they are used up. */
  function Handed(s: seq<Credential>, k: nat): Reply {
    if k < |s| then Asserted(s[k], None) else Refused(NotAllowed)
  }

  lemma {:induction false} RepliesInOrder(s: Session, times: seq<nat>, i: nat)
    requires SoundSession(s) && Timely(s.timer, times) && i < |times|
    ensures Replies(s, times)[i] == Handed(s.creds[..s.number], s.counter + i)
    decreases |times|
  {
    var s' := Next(s, None, times[0]).1;
    NextSound(s, None, times[0]);
    if i > 0 {
      if s' == CLEARED {
        ClearedRefuses(s', times[1..], i - 1);
      } else {
        RepliesInOrder(s', times[1..], i - 1);
      }
    }
  }

  /** Without a session every getNextAssertion is refused. */
  lemma {:induction false} ClearedRefuses(s: Session, times: seq<nat>, i: nat)
    requires SoundSession(s) && s.counter >= s.number
    requires (forall k :: 0 <= k < |times| ==> times[k] < UINT32) && i < |times|
    ensures Replies(s, times)[i] == Refused(NotAllowed)
    decreases |times|
  {
    if i > 0 {
      ClearedRefuses(CLEARED, times[1..], i - 1);
    }
  }

  /**
   * A user-present getAssertion that finds several eligible credentials answers with the newest and
   * their number n; timely getNextAssertion calls then hand out the others, so that the n replies are
   * every eligible credential once, in non-increasing creation order; and every further call is refused.
   */
  lemma AssertionsInOrder(s: Session, candidates: seq<Credential>, verified: bool, resident: bool,
                          now: nat, times: seq<nat>)
    requires |candidates| <= MAX_LIST && now < UINT32 && Timely(now, times)
    requires |EligibleOf(candidates, verified, resident)| > 1
    ensures var eligible := EligibleOf(candidates, verified, resident);
      var (reply, s') := Assert(s, Ok(candidates), verified, resident, true, None, None, now);
      && SoundSession(s')
      && reply == Asserted(Ranked(eligible)[0], Some(|eligible|))
      && multiset(Ranked(eligible)) == multiset(eligible) && Descending(Ranked(eligible))
      && (forall i :: 0 <= i < |times| ==> Replies(s', times)[i] == Handed(Ranked(eligible), i + 1))
  {
    var eligible := EligibleOf(candidates, verified, resident);
    var s' := Assert(s, Ok(candidates), verified, resident, true, None, None, now).1;
    RankedInOrder(eligible);
    assert s'.creds[..s'.number] == Ranked(eligible);
    forall i | 0 <= i < |times|
      ensures Replies(s', times)[i] == Handed(Ranked(eligible), i + 1)
    {
      RepliesInOrder(s', times, i);
    }
  }

  /** How many of the candidates their level permits. */
  function PermittedCount(s: seq<Credential>, verified: bool, named: bool): nat {
    if s == [] then 0
    else PermittedCount(s[..|s| - 1], verified, named) + (if Permitted(s[|s| - 1], verified, named) then 1 else 0)
  }

  lemma {:induction false} EligibleCount(s: seq<Credential>, verified: bool, resident: bool)
    ensures |EligibleOf(s, verified, resident)| == PermittedCount(s, verified, !resident)
  {
    if s != [] {
      var (t, c) := (s[..|s| - 1], s[|s| - 1]);
      EligibleCount(t, verified, resident);
      EligibleExact([c], verified, resident, c);
      assert [c][..0] == [];
    }
  }

  lemma {:induction false} SomePermitted(s: seq<Credential>, verified: bool, named: bool)
    ensures PermittedCount(s, verified, named) > 0 <==> exists c :: c in s && Permitted(c, verified, named)
  {
    if s != [] {
      var (t, c) := (s[..|s| - 1], s[|s| - 1]);
      SomePermitted(t, verified, named);
      assert s == t + [c];
    }
  }

  /**
   * getAssertion answers exactly when its level permits some candidate, the user is present if asked for,
   * and nothing else fails: with a newest permitted candidate, and their number if there are several.
   */
  lemma AnswersExactly(s: Session, found: Result<seq<Credential>>, verified: bool, resident: bool, up: bool,
                       denied: Option<Status>, failure: Option<Status>, now: nat)
    requires found.Ok? ==> |found.value| <= MAX_LIST
    ensures var (reply, s') := Assert(s, found, verified, resident, up, denied, failure, now);
      var n := if found.Ok? then PermittedCount(found.value, verified, !resident) else 0;
      && (reply.Asserted? <==> n > 0 && !(up && denied.Some?) && failure.None?)
      && (reply.Asserted? ==>
            && reply.cred in found.value && Permitted(reply.cred, verified, !resident)
            && (forall c :: c in found.value && Permitted(c, verified, !resident) ==> c.creation <= reply.cred.creation)
            && reply.total == if n > 1 then Some(n) else None)
      && (found.Err? ==> reply == Refused(found.error))
      && (found.Ok? && n == 0 ==> reply == Refused(NoCredentials))
      && (n > 0 && up && denied.Some? ==> reply == Refused(denied.value))
      && (!up || n <= 1 || denied.Some? ==> s' == s)
  {
    if found.Ok? {
      var eligible := EligibleOf(found.value, verified, resident);
      EligibleCount(found.value, verified, resident);
      if eligible != [] {
        RankedInOrder(eligible);
        FirstIsNewest(found.value, verified, resident);
      }
    }
  }

  lemma FirstIsNewest(s: seq<Credential>, verified: bool, resident: bool)
    requires EligibleOf(s, verified, resident) != []
    ensures var first := Ranked(EligibleOf(s, verified, resident))[0];
      && first in s && Permitted(first, verified, !resident)
      && forall c :: c in s && Permitted(c, verified, !resident) ==> c.creation <= first.creation
  {
    var ranked := Ranked(EligibleOf(s, verified, resident));
    RankedInOrder(EligibleOf(s, verified, resident));
    OrderExact(s, verified, resident, ranked[0]);
    forall c | c in s && Permitted(c, verified, !resident)
      ensures c.creation <= ranked[0].creation
    {
      OrderExact(s, verified, resident, c);
      var i :| 0 <= i < |ranked| && ranked[i] == c;
    }
  }

  /**
   * Without an allow list: the candidates are the first 16 credentials stored for the RP. The one in
   * slot i is at the place that the RP's slots before it give, and is a candidate if that place is
   * below 16; handed out is what credProtect lets through, and nothing else.
   */
  lemma StoredAreHandedOut(v: Vault, t: Tables, h: Hash, verified: bool)
    requires Agree(v, t)
    ensures var candidates := Take(Residents(v, t.cred, h), 16);
      var order := Ranked(EligibleOf(candidates, verified, true));
      && Candidates(v, [], t.cred, h) == Ok(candidates)
      && |candidates| == Min(Count(t.cred, h), 16)
      && (forall i :: 0 <= i < SLOTS && Carries(t.cred[i], h) && Count(t.cred[..i], h) < 16 ==>
            Count(t.cred[..i], h) < |candidates|
            && Load(v, t.cred[i][32..], h) == Ok(candidates[Count(t.cred[..i], h)]))
      && (forall c :: c in order <==> c in candidates && Permitted(c, verified, false))
  {
    var candidates := Take(Residents(v, t.cred, h), 16);
    ResidentsExact(v, t.cred, h);
    forall c: Credential
      ensures c in Ranked(EligibleOf(candidates, verified, true))
        <==> (c in candidates && Permitted(c, verified, false))
    {
      OrderExact(candidates, verified, true, c);
    }
  }

  lemma OrderExact(s: seq<Credential>, verified: bool, resident: bool, c: Credential)
    ensures c in Ranked(EligibleOf(s, verified, resident)) <==> (c in s && Permitted(c, verified, !resident))
  {
    var eligible := EligibleOf(s, verified, resident);
    RankedInOrder(eligible);
    EligibleExact(s, verified, resident, c);
    assert c in Ranked(eligible) <==> multiset(Ranked(eligible))[c] > 0;
    assert c in eligible <==> multiset(eligible)[c] > 0;
  }

  /** Place k of a table of loadable credentials is taken by the RP's slot with k of its slots before it. */
  lemma {:induction false} SlotAtPlace(v: Vault, s: seq<bytes>, h: Hash, k: nat) returns (i: nat)
    requires forall i :: 0 <= i < |s| ==> s[i] == [] || Loadable(v, s[i])
    requires k < |Residents(v, s, h)|
    ensures i < |s| && Carries(s[i], h) && Count(s[..i], h) == k
    ensures Load(v, s[i][32..], h) == Ok(Residents(v, s, h)[k])
  {
    var n := |s| - 1;
    ResidentsExact(v, s[..n], h);
    if k < |Residents(v, s[..n], h)| {
      i := SlotAtPlace(v, s[..n], h, k);
      assert s[..n][..i] == s[..i];
    } else {
      i := n;
    }
  }

  /**
   * With no two files of the RP the same, the credential in a slot is handed out exactly when fewer
   * than 16 of the RP's slots come before it, and credProtect lets it through.
   */
  lemma HandedOutExactly(v: Vault, t: Tables, h: Hash, verified: bool, i: nat)
    requires Agree(v, t) && i < SLOTS && Carries(t.cred[i], h)
    requires forall j, k :: 0 <= j < k < SLOTS && Carries(t.cred[j], h) ==> t.cred[j] != t.cred[k]
    ensures Load(v, t.cred[i][32..], h).Ok?
    ensures var c := Load(v, t.cred[i][32..], h).value;
      (c in Ranked(EligibleOf(Take(Residents(v, t.cred, h), 16), verified, true))
       <==> Count(t.cred[..i], h) < 16 && Permitted(c, verified, false))
  {
    var candidates := Take(Residents(v, t.cred, h), 16);
    ResidentsExact(v, t.cred, h);
    var c := Load(v, t.cred[i][32..], h).value;
    OrderExact(candidates, verified, true, c);
    if c in candidates {
      var k :| 0 <= k < |candidates| && candidates[k] == c;
      var j := SlotAtPlace(v, t.cred, h, k);
      SameIdSameFile(t.cred[i], t.cred[j], h);
    }
  }

  lemma SameIdSameFile(f: bytes, g: bytes, h: Hash)
    requires Carries(f, h) && Carries(g, h) && f[32..] == g[32..]
    ensures f == g
  {
    assert f == f[..32] + f[32..] && g == g[..32] + g[32..];
  }
}
