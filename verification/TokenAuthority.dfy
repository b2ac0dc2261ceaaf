/** What a pinUvAuthToken allows between two issuances, over every run. */
module TokenAuthority {
  import opened Bytes
  import opened Kek
  import opened ClientPin
  import opened PinTheorems

  /** A token whose user-verified flag and credential permissions are gone. */
  predicate Exhausted(t: Token) {
    !(t.inUse && t.userVerified) && t.permissions & (MC | GA | CM | ACFG) == 0
  }

  /** Without a token in use there are no permissions, and nobody is verified. */
  predicate TokenSane(t: Token) {
    !t.inUse ==> t.permissions == 0 && !t.userVerified
  }

  lemma NoBits(p: bv8)
    ensures p & (MC | GA | CM | ACFG) == 0 <==> p & MC == 0 && p & GA == 0 && p & CM == 0 && p & ACFG == 0
    ensures LBW & (MC | GA | CM | ACFG) == 0 && (0 as bv8) & (MC | GA | CM | ACFG) == 0
  {
  }

  /** What the commands that pass no gate for credentials do to the token. */
  lemma PinCommandsToken(d: Device, s: State, c: Command)
    requires d.Lawful() && Typed(c) && Sized(s)
    requires !c.MakeCredential? && !c.GetAssertion?
    ensures var (s', o) := Step(d, s, c);
      && (o.passage == Issued ==> c.GetToken? && s'.token == Token(true, Granted(c), c.rpAsked, false, true))
      && (o.passage != Issued ==>
            s'.token == s.token || s'.token == s.token.(permissions := 0) || (c.PowerCycle? && s'.token == NO_TOKEN))
      && (o.passage in {NoPassage, Issued} || (o.passage == Configured && s.token.permissions & ACFG != 0))
  {
    match c
    case SetPin(_, _) => SetPinShape(d, s, c);
    case ChangePin(_, _, _) => ChangePinToken(d, s, c);
    case GetToken(_, _, _, _, _) =>
      GetTokenShape(d, s, c);
    case SetMinPin(_, _, _) =>
    case PowerCycle =>
  }

  lemma ChangePinToken(d: Device, s: State, c: Command)
    requires c.ChangePin? && Typed(c) && Sized(s)
    ensures var (s', o) := ChangePinStep(d, s, c);
      o.passage == NoPassage && (s'.token == s.token || s'.token == s.token.(permissions := 0))
  {
    ChangePinShape(d, s, c);
    if ChangePinStep(d, s, c).1.attempt != NotTried {
      TryPinShape(d, s, c.pinHash.plain);
    }
  }

  lemma MakeCredentialToken(s: State, c: Command)
    requires c.MakeCredential?
    ensures var (s', o) := MakeCredentialStep(s, c);
      && s'.token.inUse == s.token.inUse && s'.token.permissions == s.token.permissions
      && (s'.token.userVerified ==> s.token.userVerified)
      && (o.passage == NoPassage ==> s'.token.rp == s.token.rp)
      && (o.passage != NoPassage ==>
            o.passage == MadeFor(c.rp) && MakeGateOpen(s.token, c.param, c.rp) && s'.token.rp == Some(c.rp))
  {
  }

  lemma GetAssertionToken(s: State, c: Command)
    requires c.GetAssertion? && Typed(c)
    ensures var (s', o) := GetAssertionStep(s, c);
      && s'.token.inUse == s.token.inUse && s'.token.rp == s.token.rp
      && (s'.token.permissions == s.token.permissions || s'.token.permissions == LBW)
      && (s'.token.userVerified ==> s.token.userVerified)
      && (o.passage != NoPassage ==>
            && (o.passage == AssertedFor(c.rp, false) || o.passage == AssertedFor(c.rp, true))
            && AssertGateOpen(s.token, c.param, c.rp))
      && (o.passage == AssertedFor(c.rp, true) ==> s'.token.permissions == LBW && !s'.token.userVerified)
      && (s.token.inUse && o.status == Success && c.up != Some(false) ==> s'.token.permissions == LBW)
      && (o.status == Success && c.param.Given? ==> o.passage == AssertedFor(c.rp, c.up != Some(false)))
  {
  }

  lemma StepTokenSane(d: Device, s: State, c: Command)
    requires d.Lawful() && Typed(c) && Sized(s) && TokenSane(s.token)
    ensures TokenSane(Step(d, s, c).0.token)
  {
    if c.MakeCredential? {
      MakeCredentialToken(s, c);
    } else if c.GetAssertion? {
      AssertionTokenSane(s, c);
    } else {
      PinCommandsToken(d, s, c);
    }
  }

  lemma AssertionTokenSane(s: State, c: Command)
    requires c.GetAssertion? && TokenSane(s.token)
    ensures TokenSane(GetAssertionStep(s, c).0.token)
  {
  }

  /** An exhausted token passes no gate and stays exhausted until a token is issued. */
  lemma StepExhausted(d: Device, s: State, c: Command)
    requires d.Lawful() && Typed(c) && Sized(s) && Exhausted(s.token)
    ensures var (s', o) := Step(d, s, c);
      && (o.passage == NoPassage || o.passage == Issued)
      && (o.passage != Issued ==> Exhausted(s'.token))
  {
    NoBits(s.token.permissions);
    if c.MakeCredential? {
      MakeCredentialToken(s, c);
    } else if c.GetAssertion? {
      GetAssertionToken(s, c);
    } else {
      PinCommandsToken(d, s, c);
    }
  }

  /** No token is issued from command i on. */
  predicate NoneIssued(d: Device, s: State, cs: seq<Command>, i: nat)
    requires d.Lawful() && TypedRun(cs) && Sized(s)
  {
    if |cs| <= i then true
    else NoneIssued(d, s, cs[..|cs| - 1], i) && OutcomeOf(d, s, cs, |cs| - 1).passage != Issued
  }

  /** The last command of a run, and what comes before it. */
  lemma RunLast(d: Device, s: State, cs: seq<Command>, i: nat)
    requires d.Lawful() && TypedRun(cs) && Sized(s) && i < |cs|
    ensures var (before, c) := (cs[..|cs| - 1], cs[|cs| - 1]);
      && TypedRun(before) && Typed(c) && before[..i] == cs[..i]
      && Run(d, s, cs) == Step(d, Run(d, s, before), c).0
      && OutcomeOf(d, s, cs, |cs| - 1) == Step(d, Run(d, s, before), c).1
  {
  }

  lemma {:induction false} ExhaustedFrom(d: Device, s: State, cs: seq<Command>, i: nat)
    requires d.Lawful() && TypedRun(cs) && Sized(s) && i <= |cs|
    requires Exhausted(Run(d, s, cs[..i]).token) && NoneIssued(d, s, cs, i)
    ensures Exhausted(Run(d, s, cs).token)
  {
    if i == |cs| {
      assert cs[..i] == cs;
    } else {
      RunLast(d, s, cs, i);
      ExhaustedFrom(d, s, cs[..|cs| - 1], i);
      StepExhausted(d, Run(d, s, cs[..|cs| - 1]), cs[|cs| - 1]);
    }
  }

  lemma RunNext(d: Device, s: State, cs: seq<Command>, n: nat)
    requires d.Lawful() && TypedRun(cs) && Sized(s) && n < |cs|
    ensures Run(d, s, cs[..n + 1]) == Step(d, Run(d, s, cs[..n]), cs[n]).0
  {
    assert cs[..n + 1][..n] == cs[..n];
  }

  /**
   * Between two issuances: after a user-present assertion passed the token gate, no makeCredential,
   * no getAssertion and no configuration passes it. So at most one user-present assertion with user
   * verification succeeds on one token.
   */
  lemma OneAssertionPerToken(d: Device, s: State, cs: seq<Command>, i: nat, k: nat)
    requires d.Lawful() && TypedRun(cs) && Sized(s) && i < k < |cs|
    requires OutcomeOf(d, s, cs, i).passage.AssertedFor? && OutcomeOf(d, s, cs, i).passage.userPresent
    requires NoneIssued(d, s, cs[..k], i + 1)
    ensures OutcomeOf(d, s, cs, k).passage in {NoPassage, Issued}
  {
    var before := Run(d, s, cs[..i]);
    if !cs[i].GetAssertion? {
      if cs[i].MakeCredential? {
        MakeCredentialToken(before, cs[i]);
      } else {
        PinCommandsToken(d, before, cs[i]);
      }
    }
    GetAssertionToken(before, cs[i]);
    NoBits(0);
    RunNext(d, s, cs, i);
    assert cs[..k][..i + 1] == cs[..i + 1];
    ExhaustedFrom(d, s, cs[..k], i + 1);
    StepExhausted(d, Run(d, s, cs[..k]), cs[k]);
  }

  // ---------- one RP per token ----------

  predicate BoundTo(t: Token, rp: octets) {
    TokenSane(t) && (t.rp == Some(rp) || !t.inUse)
  }

  lemma StepKeepsBinding(d: Device, s: State, c: Command, rp: octets)
    requires d.Lawful() && Typed(c) && Sized(s) && BoundTo(s.token, rp)
    ensures var (s', o) := Step(d, s, c);
      && (o.passage != Issued ==> BoundTo(s'.token, rp))
      && (o.passage.MadeFor? || o.passage.AssertedFor? ==> o.passage.rp == rp)
  {
    StepTokenSane(d, s, c);
    if c.MakeCredential? {
      MakeCredentialToken(s, c);
    } else if c.GetAssertion? {
      GetAssertionToken(s, c);
    } else {
      PinCommandsToken(d, s, c);
    }
  }

  lemma {:induction false} BoundFrom(d: Device, s: State, cs: seq<Command>, i: nat, rp: octets)
    requires d.Lawful() && TypedRun(cs) && Sized(s) && i <= |cs|
    requires BoundTo(Run(d, s, cs[..i]).token, rp) && NoneIssued(d, s, cs, i)
    ensures BoundTo(Run(d, s, cs).token, rp)
  {
    if i == |cs| {
      assert cs[..i] == cs;
    } else {
      RunLast(d, s, cs, i);
      BoundFrom(d, s, cs[..|cs| - 1], i, rp);
      StepKeepsBinding(d, Run(d, s, cs[..|cs| - 1]), cs[|cs| - 1], rp);
    }
  }

  /**
   * Between two issuances, the first makeCredential that passes the token check binds the token: every
   * later makeCredential and getAssertion that passes is for the same RP.
   */
  lemma OneRpPerToken(d: Device, s: State, cs: seq<Command>, i: nat, k: nat)
    requires d.Lawful() && TypedRun(cs) && Sized(s) && i < k < |cs| && TokenSane(Run(d, s, cs[..i]).token)
    requires OutcomeOf(d, s, cs, i).passage.MadeFor?
    requires NoneIssued(d, s, cs[..k], i + 1)
    ensures var o := OutcomeOf(d, s, cs, k);
      o.passage.MadeFor? || o.passage.AssertedFor? ==> o.passage.rp == OutcomeOf(d, s, cs, i).passage.rp
  {
    var before := Run(d, s, cs[..i]);
    var rp := OutcomeOf(d, s, cs, i).passage.rp;
    if !cs[i].MakeCredential? {
      if cs[i].GetAssertion? {
        GetAssertionToken(before, cs[i]);
      } else {
        PinCommandsToken(d, before, cs[i]);
      }
    }
    MakeCredentialToken(before, cs[i]);
    StepTokenSane(d, before, cs[i]);
    RunNext(d, s, cs, i);
    assert cs[..k][..i + 1] == cs[..i + 1];
    BoundFrom(d, s, cs[..k], i + 1, rp);
    StepKeepsBinding(d, Run(d, s, cs[..k]), cs[k], rp);
  }

  /** From power-up every reachable token is sane. */
  lemma {:induction false} RunTokenSane(d: Device, s: State, cs: seq<Command>)
    requires d.Lawful() && TypedRun(cs) && Sized(s) && TokenSane(s.token)
    ensures TokenSane(Run(d, s, cs).token)
  {
    if cs != [] {
      RunTokenSane(d, s, cs[..|cs| - 1]);
      StepTokenSane(d, Run(d, s, cs[..|cs| - 1]), cs[|cs| - 1]);
    }
  }

  // ---------- the device key behind a token ----------

  /** While a token is in use there is a PIN, and the MKEK is unlocked. */
  predicate TokenUnlocked(d: Device, s: State, raw: octets)
    requires Sized(s)
  {
    s.token.inUse ==> s.pin.Some? && Unlocked(d, s, raw)
  }

  /** A token comes into use only when one is issued, on a right PIN. */
  lemma StepTokenUse(d: Device, s: State, c: Command)
    requires d.Lawful() && Typed(c) && Sized(s)
    ensures var (s', o) := Step(d, s, c);
      && (s'.token.inUse && !s.token.inUse ==> o.attempt == Right)
      && (c.PowerCycle? ==> !s'.token.inUse)
  {
    if c.MakeCredential? {
      MakeCredentialToken(s, c);
    } else if c.GetAssertion? {
      GetAssertionToken(s, c);
    } else {
      PinCommandsToken(d, s, c);
      if c.GetToken? {
        GetTokenShape(d, s, c);
      }
    }
  }

  lemma StepTokenUnlocked(d: Device, s: State, c: Command, raw: octets, key: octets)
    requires d.Lawful() && Typed(c) && KeyHeld(d, s, raw, key) && TokenUnlocked(d, s, raw)
    ensures KeyHeld(d, Step(d, s, c).0, raw, key) && TokenUnlocked(d, Step(d, s, c).0, raw)
  {
    StepKeepsKey(d, s, c, raw, key);
    StepTokenUse(d, s, c);
  }

  /** In every reachable state a token in use means that the MKEK is unlocked. */
  lemma {:induction false} RunTokenUnlocked(d: Device, cs: seq<Command>, raw: octets, key: octets)
    requires d.Lawful() && TypedRun(cs) && |raw| == RAW_SIZE
    ensures TokenUnlocked(d, Run(d, Scanned(d, raw, key), cs), raw)
  {
    if cs != [] {
      RunLast(d, Scanned(d, raw, key), cs, 0);
      RunTokenUnlocked(d, cs[..|cs| - 1], raw, key);
      RunKeepsKey(d, cs[..|cs| - 1], raw, key);
      StepTokenUnlocked(d, Run(d, Scanned(d, raw, key), cs[..|cs| - 1]), cs[|cs| - 1], raw, key);
    }
  }

  /** What passes a credential gate passes it with a token in use. */
  lemma PassageNeedsToken(d: Device, s: State, c: Command)
    requires d.Lawful() && Typed(c) && Sized(s)
    ensures Step(d, s, c).1.passage.MadeFor? || Step(d, s, c).1.passage.AssertedFor? ==> s.token.inUse
  {
    if c.MakeCredential? {
      MakeCredentialToken(s, c);
    } else if c.GetAssertion? {
      GetAssertionToken(s, c);
    } else {
      PinCommandsToken(d, s, c);
    }
  }

  /**
   * In every reachable state: a makeCredential or getAssertion that passes its token gate can load
   * the originally generated device key.
   */
  lemma GatedHasKey(d: Device, cs: seq<Command>, c: Command, raw: octets, key: octets)
    requires d.Lawful() && TypedRun(cs) && Typed(c) && |raw| == RAW_SIZE
    requires var o := Step(d, Run(d, Scanned(d, raw, key), cs), c).1; o.passage.MadeFor? || o.passage.AssertedFor?
    ensures var s := Run(d, Scanned(d, raw, key), cs);
      LoadDeviceKey(d.suite, d.otp, s.session, s.mkek, s.keydev) == Ok(key)
  {
    var s := Run(d, Scanned(d, raw, key), cs);
    PassageNeedsToken(d, s, c);
    RunTokenUnlocked(d, cs, raw, key);
    RunKeepsKey(d, cs, raw, key);
    DeviceKeyLoads(d.suite, d.otp, s.session, s.mkek, raw, key);
  }
}
