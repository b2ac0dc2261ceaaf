/** getAssertion and getNextAssertion over the globals they keep. */
module AssertionEngine {
  import opened Bytes
  import opened SealedCredential
  import opened ResidentTables
  import opened Assertion

  const FREED := Slot(false, BLANK)

  class Engine {
    var credsx: array<Slot>
    var credentialCounter: byte
    var numberOfCredentialsx: byte
    var timerx: nat

    /** The credentials still to be handed out have not been freed. */
    ghost predicate Valid()
      reads this, credsx
    {
      && credsx.Length == MAX_LIST
      && numberOfCredentialsx <= MAX_LIST
      && timerx < UINT32
      && credsx[..numberOfCredentialsx] == Slots(Creds(credsx[..numberOfCredentialsx]))
    }

    ghost function Current(): (s: Session)
      requires Valid()
      reads this, credsx
      ensures SoundSession(s)
    {
      Session(Creds(credsx[..numberOfCredentialsx]), credentialCounter, numberOfCredentialsx, timerx)
    }

    constructor ()
      ensures Valid() && fresh(credsx)
      ensures Current() == Session([], 1, 0, 0)
    {
      credsx := new Slot[MAX_LIST](_ => FREED);
      credentialCounter := 1;
      numberOfCredentialsx := 0;
      timerx := 0;
    }

    /** The candidates of a request, at the front of `creds`. */
    method Collect(v: Vault, l: seq<Descriptor>, table: seq<bytes>, h: Hash, creds: array<Slot>)
      returns (failed: Option<Status>, n: nat)
      requires creds.Length == MAX_LIST && |l| <= MAX_LIST
      modifies creds
      ensures n <= MAX_LIST
      ensures match Candidates(v, l, table, h)
        case Err(e) => failed == Some(e)
        case Ok(s) => failed == None && creds[..n] == Slots(s)
    {
      if l != [] {
        failed, n := CollectAllowed(v, l, h, creds);
      } else {
        failed := None;
        n := CollectResidents(v, table, h, creds);
      }
    }

    /** Loads a credential into the next slot, which stays free if that fails. */
    method LoadInto(v: Vault, id: bytes, h: Hash, creds: array<Slot>, n: nat) returns (n': nat)
      requires n < creds.Length
      modifies creds
      ensures n' <= n + 1
      ensures creds[..n'] == old(creds[..n]) + (if Load(v, id, h).Ok? then [Slot(true, Load(v, id, h).value)] else [])
    {
      var c := LoadCredential(v, id, h);
      if c.Err? {
        return n;
      }
      creds[n] := Slot(true, c.value);
      n' := n + 1;
    }

    /** The loop over the allow list. */
    method CollectAllowed(v: Vault, l: seq<Descriptor>, h: Hash, creds: array<Slot>)
      returns (failed: Option<Status>, n: nat)
      requires creds.Length == MAX_LIST && |l| <= MAX_LIST
      modifies creds
      ensures n <= MAX_LIST
      ensures match Allowed(v, l, h)
        case Err(e) => failed == Some(e)
        case Ok(s) => failed == None && creds[..n] == Slots(s)
    {
      n := 0;
      ghost var got: seq<Credential> := [];
      assert l[..0] == [];
      for e := 0 to |l|
        invariant n == |got| <= e && creds[..n] == Slots(got)
        invariant Allowed(v, l[..e], h) == Ok(got)
      {
        AllowedNext(v, l, h, e);
        if l[e].kind.None? || l[e].id.None? {
          return Some(MissingParameter), n;
        }
        if CString(l[e].kind.value) == PUBLIC_KEY {
          n := LoadInto(v, l[e].id.value, h, creds, n);
        }
        got := got + AddedBy(v, l[e], h);
      }
      assert l[..|l|] == l;
      failed := None;
    }

    /** Passes over a file of another RP. */
    method LoadResident(v: Vault, f: bytes, h: Hash, creds: array<Slot>, n: nat) returns (n': nat)
      requires n < creds.Length
      modifies creds
      ensures n' <= n + 1 && creds[..n'] == old(creds[..n]) + Slots(Resident(v, f, h))
    {
      n' := n;
      if Carries(f, h) {
        n' := LoadInto(v, f[32..], h, creds, n);
      }
    }

    /** The loop over the credential files, until 16 are found. */
    method CollectResidents(v: Vault, table: seq<bytes>, h: Hash, creds: array<Slot>) returns (n: nat)
      requires creds.Length == MAX_LIST
      modifies creds
      ensures n <= MAX_LIST && creds[..n] == Slots(Take(Residents(v, table, h), MAX_LIST))
    {
      n := 0;
      var i := 0;
      ghost var got: seq<Credential> := [];
      while i < |table| && n < MAX_LIST
        invariant i <= |table| && n == |got| <= MAX_LIST && creds[..n] == Slots(got)
        invariant got == Residents(v, table[..i], h)
      {
        ResidentsNext(v, table, h, i);
        n := LoadResident(v, table[i], h, creds, n);
        got := got + Resident(v, table[i], h);
        i := i + 1;
      }
      FirstResidents(v, table, h, i);
    }

    /** The credentials that may be used, compacted at the front of a new array. */
    method Gather(v: Vault, l: seq<Descriptor>, table: seq<bytes>, h: Hash, verified: bool)
      returns (failed: Option<Status>, creds: array<Slot>, number: nat)
      requires |l| <= MAX_LIST
      ensures fresh(creds) && creds.Length == MAX_LIST && number <= MAX_LIST
      ensures match Candidates(v, l, table, h)
        case Err(e) => failed == Some(e)
        case Ok(found) => failed == None && creds[..number] == Slots(EligibleOf(found, verified, l == []))
    {
      creds := new Slot[MAX_LIST](_ => FREED);
      failed, number := Collect(v, l, table, h, creds);
      if failed.None? {
        ghost var found := Candidates(v, l, table, h).value;
        number := FilterInPlace(creds, number, verified, l == [], found);
      }
    }

    /** `cbor_get_assertion` from the candidates on. */
    method GetAssertion(v: Vault, l: seq<Descriptor>, table: seq<bytes>, h: Hash, verified: bool, up: bool,
                        denied: Option<Status>, failure: Option<Status>, now: nat) returns (reply: Reply)
      requires Valid() && |l| <= MAX_LIST && now < UINT32
      modifies this, credsx
      ensures Valid() && credsx == old(credsx)
      ensures (reply, Current())
        == Assert(old(Current()), Candidates(v, l, table, h), verified, l == [], up, denied, failure, now)
    {
      var failed, creds, number := Gather(v, l, table, h, verified);
      if failed.Some? {
        return Refused(failed.value);
      }
      if number == 0 {
        return Refused(NoCredentials);
      }
      ghost var eligible := EligibleOf(Candidates(v, l, table, h).value, verified, l == []);
      reply := Answer(creds, number, eligible, up, denied, failure, now);
    }

    /** The sort, user presence, the session and the response. */
    method Answer(creds: array<Slot>, number: nat, ghost eligible: seq<Credential>, up: bool,
                  denied: Option<Status>, failure: Option<Status>, now: nat) returns (reply: Reply)
      requires Valid() && creds.Length == MAX_LIST && creds != credsx && 0 < number <= MAX_LIST && now < UINT32
      requires creds[..number] == Slots(eligible)
      modifies this, credsx, creds
      ensures Valid() && credsx == old(credsx)
      ensures (reply, Current()) == Respond(old(Current()), eligible, up, denied, failure, now)
    {
      SortInPlace(creds, number);
      SortKeepsPresent(eligible);
      ghost var ranked := Ranked(eligible);
      assert creds[..number] == Slots(ranked);
      var chosen := creds[0].cred;
      assert creds[0] == creds[..number][0];
      if up {
        if denied.Some? {
          return Refused(denied.value);
        }
        if number > 1 {
          OpenSession(creds, number, now, ranked);
        }
      }
      if failure.Some? {
        reply := Refused(failure.value);
      } else {
        reply := Asserted(chosen, if number > 1 then Some(number) else None);
      }
    }

    /** Keeps the sorted credentials for getNextAssertion. */
    method OpenSession(creds: array<Slot>, number: nat, now: nat, ghost ranked: seq<Credential>)
      requires Valid() && creds.Length == MAX_LIST && creds != credsx && number <= MAX_LIST && now < UINT32
      requires creds[..number] == Slots(ranked)
      modifies this, credsx
      ensures Valid() && credsx == old(credsx)
      ensures Current() == Session(ranked, 1, number, now)
    {
      forall i | 0 <= i < MAX_LIST {
        credsx[i] := creds[i];
      }
      numberOfCredentialsx := number;
      timerx := now;
      credentialCounter := 1;
      assert credsx[..number] == creds[..number];
      CredsOfSlots(ranked);
    }

    /** Frees the session. */
    method Clear()
      requires Valid()
      modifies this, credsx
      ensures Valid() && credsx == old(credsx) && Current() == CLEARED
    {
      forall i | 0 <= i < MAX_LIST {
        credsx[i] := credsx[i].(present := false);
      }
      timerx := 0;
      credentialCounter := 0;
      numberOfCredentialsx := 0;
    }

    /** `cbor_get_next_assertion`; what it answers with has not been freed. */
    method GetNextAssertion(failure: Option<Status>, now: nat) returns (reply: Reply)
      requires Valid() && now < UINT32
      modifies this, credsx
      ensures Valid() && credsx == old(credsx)
      ensures (reply, Current()) == Next(old(Current()), failure, now)
      ensures reply.Asserted? ==> Slot(true, reply.cred) in old(credsx[..])
    {
      if credentialCounter >= numberOfCredentialsx || (timerx + NEXT_LIMIT) % UINT32 < now {
        Clear();
        return Refused(NotAllowed);
      }
      if failure.Some? {
        Clear();
        return Refused(failure.value);
      }
      reply := Asserted(credsx[credentialCounter].cred, None);
      assert credsx[credentialCounter] == credsx[..numberOfCredentialsx][credentialCounter];
      timerx := now;
      credentialCounter := credentialCounter + 1;
      if credentialCounter == numberOfCredentialsx {
        Clear();
      }
    }
  }

  lemma {:induction false} AllowedFailure(v: Vault, l: seq<Descriptor>, h: Hash, e: nat)
    requires e <= |l| && Allowed(v, l[..e], h).Err?
    ensures Allowed(v, l, h) == Err(MissingParameter)
    decreases |l|
  {
    if e < |l| {
      assert l[..|l| - 1][..e] == l[..e];
      AllowedFailure(v, l[..|l| - 1], h, e);
    } else {
      assert l[..e] == l;
    }
  }

  /** One more entry of the allow list. */
  lemma AllowedNext(v: Vault, l: seq<Descriptor>, h: Hash, e: nat)
    requires e < |l| && Allowed(v, l[..e], h).Ok?
    ensures l[e].kind.None? || l[e].id.None? ==> Allowed(v, l, h) == Err(MissingParameter)
    ensures l[e].kind.Some? && l[e].id.Some? ==>
      Allowed(v, l[..e + 1], h) == Ok(Allowed(v, l[..e], h).value + AddedBy(v, l[e], h))
  {
    assert l[..e + 1][..e] == l[..e] && l[..e + 1][e] == l[e];
    if l[e].kind.None? || l[e].id.None? {
      AllowedFailure(v, l, h, e + 1);
    }
  }

  lemma ResidentsNext(v: Vault, s: seq<bytes>, h: Hash, i: nat)
    requires i < |s|
    ensures Residents(v, s[..i + 1], h) == Residents(v, s[..i], h) + Resident(v, s[i], h)
  {
    assert s[..i + 1][..i] == s[..i] && s[..i + 1][i] == s[i];
  }

  lemma {:induction false} ResidentsPrefix(v: Vault, s: seq<bytes>, h: Hash, i: nat)
    requires i <= |s|
    ensures Residents(v, s[..i], h) <= Residents(v, s, h)
    ensures i == |s| ==> Residents(v, s[..i], h) == Residents(v, s, h)
    decreases |s|
  {
    if i < |s| {
      assert s[..|s| - 1][..i] == s[..i];
      ResidentsPrefix(v, s[..|s| - 1], h, i);
    } else {
      assert s[..i] == s;
    }
  }

  /** The loop stops at the end of the table or with 16 credentials. */
  lemma FirstResidents(v: Vault, table: seq<bytes>, h: Hash, i: nat)
    requires i <= |table| && |Residents(v, table[..i], h)| <= MAX_LIST
    requires i == |table| || |Residents(v, table[..i], h)| == MAX_LIST
    ensures Residents(v, table[..i], h) == Take(Residents(v, table, h), MAX_LIST)
  {
    ResidentsPrefix(v, table, h, i);
  }

  /** Sorting moves slots whole, so what was present still is. */
  lemma SortKeepsPresent(s: seq<Credential>)
    ensures SortFrom(Slots(s), 0) == Slots(Ranked(s))
  {
    SortFromPresent(Slots(s), 0);
  }

  lemma {:induction false} SortFromPresent(s: seq<Slot>, i: nat)
    requires i <= |s| && s == Slots(Creds(s))
    ensures SortFrom(s, i) == Slots(Creds(SortFrom(s, i)))
    decreases |s| - i
  {
    if i < |s| {
      PassPresent(s, i, i + 1);
      SortFromPresent(Pass(s, i, i + 1), i + 1);
    }
  }

  lemma {:induction false} PassPresent(s: seq<Slot>, i: nat, j: nat)
    requires i < j <= |s| && s == Slots(Creds(s))
    ensures Pass(s, i, j) == Slots(Creds(Pass(s, i, j)))
    decreases |s| - j
  {
    if j < |s| {
      var s' := Exchange(s, i, j);
      assert forall k :: 0 <= k < |s| ==> s[k].present by {
        assert forall k :: 0 <= k < |s| ==> s[k] == Slots(Creds(s))[k];
      }
      assert s' == Slots(Creds(s'));
      PassPresent(s', i, j + 1);
    }
  }
}
