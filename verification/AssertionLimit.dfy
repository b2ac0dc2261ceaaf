/** getAssertion without an allow list considers 16 credentials: what happens to a seventeenth. */
module AssertionLimit {
  import opened Bytes
  import opened SealedCredential
  import opened ResidentTables
  import opened ResidentTheorems
  import opened ResidentRuns
  import opened Assertion

  /** Registrations at one RP of the users 01, 02, ... up to n. */
  function Registrations(v: Vault, n: nat): seq<Command>
    requires n < 256
  {
    if n == 0 then [] else Registrations(v, n - 1) + [Register(v, [n])]
  }

  /** f holds the credential of user u + 1 as registered. */
  predicate UserFile(v: Vault, f: bytes, u: nat)
    requires u < 255
  {
    && Carries(f, v.sha256(RP_ID))
    && Load(v, f[32..], v.sha256(RP_ID)) == Ok(Normal(Plainest([u + 1]), 0, f[32..]))
  }

  /** The first n files are those of the n users, and the others are free. */
  predicate Filled(v: Vault, s: seq<bytes>, n: nat)
    requires n < 256
  {
    |s| == SLOTS && forall k :: 0 <= k < SLOTS ==> if k < n then UserFile(v, s[k], k) else s[k] == []
  }

  lemma OtherUser(v: Vault, f: bytes, u: nat, w: nat)
    requires u < 255 && w < 255 && u != w && UserFile(v, f, u)
    ensures !Matches(v, f, v.sha256(RP_ID), [w + 1])
  {
    assert Load(v, f[32..], v.sha256(RP_ID)).value.UserId() == [u + 1];
    assert [u + 1][0] != [w + 1][0];
  }

  lemma OneMoreUser(v: Vault, t: Tables, n: nat)
    requires v.Lawful() && Agree(v, t) && n < 255 && Filled(v, t.cred, n)
    ensures Filled(v, Step(v, t, Register(v, [n + 1])).1.cred, n + 1)
  {
    forall k | 0 <= k < SLOTS
      ensures !Matches(v, t.cred[k], v.sha256(RP_ID), [n + 1])
    {
      if k < n {
        OtherUser(v, t.cred[k], k, n);
      }
    }
    var f := RegisterNew(v, t, [n + 1], n);
  }

  lemma OneMoreRegistration(v: Vault, n: nat)
    requires v.Lawful() && n < 255 && Filled(v, Run(v, NOTHING, Registrations(v, n)).cred, n)
    ensures Filled(v, Run(v, NOTHING, Registrations(v, n + 1)).cred, n + 1)
  {
    var cs := Registrations(v, n);
    RunAgrees(v, cs);
    OneMoreUser(v, Run(v, NOTHING, cs), n);
    RunOneMore(v, cs, Register(v, [n + 1]));
  }

  lemma {:induction false} RegistrationsFill(v: Vault, n: nat)
    requires v.Lawful() && n < 256
    ensures Filled(v, Run(v, NOTHING, Registrations(v, n)).cred, n)
  {
    if n > 0 {
      RegistrationsFill(v, n - 1);
      OneMoreRegistration(v, n - 1);
    }
  }

  lemma {:induction false} FilledCount(v: Vault, s: seq<bytes>, n: nat, i: nat)
    requires n < 256 && Filled(v, s, n) && i <= n
    ensures Count(s[..i], v.sha256(RP_ID)) == i
  {
    if i > 0 {
      FilledCount(v, s, n, i - 1);
      assert s[..i][..i - 1] == s[..i - 1];
    }
  }

  lemma UserFilesDiffer(v: Vault, f: bytes, g: bytes, u: nat, w: nat)
    requires u < w < 255 && UserFile(v, f, u) && UserFile(v, g, w)
    ensures f != g
  {
    assert [u + 1][0] != [w + 1][0];
    assert Load(v, f[32..], v.sha256(RP_ID)).value.userId == Some([u + 1]);
    assert Load(v, g[32..], v.sha256(RP_ID)).value.userId == Some([w + 1]);
  }

  lemma FilledDistinct(v: Vault, s: seq<bytes>, n: nat)
    requires n < 256 && Filled(v, s, n)
    ensures forall j, k :: 0 <= j < k < SLOTS && Carries(s[j], v.sha256(RP_ID)) ==> s[j] != s[k]
  {
    forall j, k | 0 <= j < k < SLOTS && Carries(s[j], v.sha256(RP_ID))
      ensures s[j] != s[k]
    {
      if k < n {
        UserFilesDiffer(v, s[j], s[k], j, k);
      }
    }
  }

  /**
   * After 17 registrations the RP has 17 credentials, none protected. The 17th is eligible and is
   * never handed out.
   */
  lemma SeventeenthLost(v: Vault, verified: bool)
    requires v.Lawful()
    ensures var (t, h) := (Run(v, NOTHING, Registrations(v, 17)), v.sha256(RP_ID));
      && Agree(v, t) && Carries(t.cred[16], h) && Count(t.cred[..17], h) == 17
      && Load(v, t.cred[16][32..], h).Ok? && Permitted(Load(v, t.cred[16][32..], h).value, verified, false)
      && Load(v, t.cred[16][32..], h).value
           !in Ranked(EligibleOf(Take(Residents(v, t.cred, h), 16), verified, true))
  {
    var t := Run(v, NOTHING, Registrations(v, 17));
    RunAgrees(v, Registrations(v, 17));
    RegistrationsFill(v, 17);
    FilledDistinct(v, t.cred, 17);
    FilledCount(v, t.cred, 17, 16);
    FilledCount(v, t.cred, 17, 17);
    assert UserFile(v, t.cred[16], 16);
    HandedOutExactly(v, t, v.sha256(RP_ID), verified, 16);
  }
}
