/**
 * Which requests succeed: for each command a condition on the request and the state alone, with the
 * permission bits and protocol numbers of section 6.5 of CTAP 2.1 written out; and which PIN works.
 */
module PinGates {
  import opened Bytes
  import opened Kek
  import opened ClientPin
  import opened PinTheorems
  import opened PinPolicy
  import opened TokenAuthority

  // ---------- the token gates ----------

  /** A matching MAC under protocol 1 or 2, and a verified token in use with the permission, free or of that RP. */
  predicate Allows(t: Token, p: AuthParam, permission: bv8, rp: octets) {
    && p.Given? && p.protocol in {1, 2} && p.macOk
    && t.inUse && t.userVerified && t.permissions & permission != 0
    && (t.rp.None? || t.rp == Some(rp))
  }

  /**
   * makeCredential passes its token gate exactly when the token allows it and nothing was refused
   * before; the token is then bound to the RP. Without a pinUvAuthParam it succeeds only without a PIN.
   */
  lemma MakeCredentialExactly(d: Device, s: State, c: Command)
    requires c.MakeCredential? && Typed(c) && Sized(s)
    ensures var (s', o) := Step(d, s, c);
      var e := c.errors;
      && o.passage in {NoPassage, MadeFor(c.rp)}
      && (o.passage == MadeFor(c.rp) <==>
            e.first.None? && e.beforeGate.None? && c.uv != Some(true) && c.up.None?
            && Allows(s.token, c.param, 0x01, c.rp))
      && (o.passage == MadeFor(c.rp) ==> s' == s.(token := s.token.(rp := Some(c.rp))))
      && (o.status == Success <==>
            e == Errors(None, None, None, None) && c.uv != Some(true) && c.up.None?
            && ((c.param.Absent? && s.pin.None?)
                || (Allows(s.token, c.param, 0x01, c.rp) && (s.token.userPresent || c.touched))))
  {
  }

  /** What getAssertion asks for before its token gate, and of the gate itself. */
  predicate AssertionAllowed(s: State, c: Command)
    requires c.GetAssertion?
  {
    c.errors.first.None? && c.uv != Some(true) && !c.rk && Allows(s.token, c.param, 0x02, c.rp)
  }

  /**
   * getAssertion passes its token gate exactly when the token allows it and nothing was refused
   * before; with user presence it leaves the token without user flags, and only large-blob writes.
   */
  lemma GetAssertionExactly(d: Device, s: State, c: Command)
    requires c.GetAssertion? && Typed(c) && Sized(s)
    ensures var (s', o) := Step(d, s, c);
      var present := c.errors.afterGate.None? && c.up != Some(false) && (c.touched || s.token.userPresent);
      && (o.passage == if !AssertionAllowed(s, c) then NoPassage else AssertedFor(c.rp, present))
      && (AssertionAllowed(s, c) ==>
            s' == if !present then s
                  else s.(token := s.token.(userPresent := false, userVerified := false, permissions := 0x10)))
      && (o.status == Success && c.param.Given? ==> AssertionAllowed(s, c))
  {
  }

  lemma GetAssertionSucceeds(d: Device, s: State, c: Command)
    requires c.GetAssertion? && Typed(c) && Sized(s)
    ensures Step(d, s, c).1.status == Success <==>
      && c.errors.first.None? && c.errors.afterGate.None? && c.errors.last.None? && c.uv != Some(true) && !c.rk
      && (c.param.Absent? || Allows(s.token, c.param, 0x02, c.rp))
      && (c.up == Some(false) || c.touched || (c.param.Given? && s.token.userPresent))
  {
  }

  /** setMinPINLength passes its gate on the configuration permission, under the low byte of the protocol number. */
  predicate ConfigurationAllowed(s: State, c: Command)
    requires c.SetMinPin?
  {
    && c.param.Given? && (c.param.protocol % 256 == 1 || c.param.protocol % 256 == 2) && c.param.macOk
    && s.token.permissions & 0x20 != 0
  }

  /**
   * A granted request that does not lower the minimum stores its low byte, or the old minimum for 0.
   * The force flag is then set exactly when asked for, or when the PIN is shorter than what was asked:
   * a flag that was pending is otherwise cleared.
   */
  lemma SetMinPinExactly(d: Device, s: State, c: Command)
    requires c.SetMinPin? && Typed(c) && Sized(s)
    ensures var (s', o) := Step(d, s, c);
      var wanted := if c.newMin == 0 then MinPinLength(s) as nat else c.newMin;
      && o.passage == (if ConfigurationAllowed(s, c) then Configured else NoPassage)
      && (o.status == Success <==>
            ConfigurationAllowed(s, c) && wanted >= MinPinLength(s) && (c.force == Some(true) ==> s.pin.Some?))
      && s' == s.(minPin := s'.minPin)
      && (o.status == Success ==>
            && MinPinLength(s') as nat == wanted % 256
            && (Forced(s') <==> c.force == Some(true) || (s.pin.Some? && (s.pin.value.length as nat) < wanted)))
      && (o.status != Success ==> s' == s)
  {
  }

  /** A pending change of the PIN is called off by a request that changes nothing else. */
  lemma PendingChangeCleared(d: Device, s: State, c: Command)
    requires c.SetMinPin? && Typed(c) && Sized(s) && ConfigurationAllowed(s, c)
    requires Forced(s) && s.pin.Some? && s.pin.value.length >= MinPinLength(s) && c.newMin == 0 && c.force != Some(true)
    ensures var s' := Step(d, s, c).0; !Forced(s') && MinPinLength(s') == MinPinLength(s) && s'.pin == s.pin
  {
    SetMinPinExactly(d, s, c);
  }

  // ---------- power cycles ----------

  /** Nobody is let in: there is a PIN, no session key, and no token. */
  predicate Locked(s: State) {
    s.pin.Some? && s.session == NO_SESSION && !s.token.inUse && TokenSane(s.token)
  }

  lemma StepLocked(d: Device, s: State, c: Command)
    requires d.Lawful() && Typed(c) && Sized(s) && Locked(s) && Step(d, s, c).1.attempt != Right
    ensures Locked(Step(d, s, c).0) && Step(d, s, c).1.passage == NoPassage
  {
    StepStaysLocked(d, s, c);
    StepTokenUse(d, s, c);
    StepTokenSane(d, s, c);
    match c
    case MakeCredential(_, _, _, _, _, _) => MakeCredentialExactly(d, s, c);
    case GetAssertion(_, _, _, _, _, _, _) => GetAssertionExactly(d, s, c);
    case GetToken(_, _, _, _, _) => GetTokenShape(d, s, c);
    case _ => PinCommandsToken(d, s, c);
  }

  lemma {:induction false} RunLocked(d: Device, s: State, cs: seq<Command>)
    requires d.Lawful() && TypedRun(cs) && Sized(s) && Locked(s) && NoRightPin(d, s, cs)
    ensures Locked(Run(d, s, cs))
    ensures cs != [] ==> OutcomeOf(d, s, cs, |cs| - 1).passage == NoPassage
  {
    if cs != [] {
      RunLocked(d, s, cs[..|cs| - 1]);
      StepLocked(d, Run(d, s, cs[..|cs| - 1]), cs[|cs| - 1]);
    }
  }

  /**
   * A power cycle forgets session key, token and mismatches, and nothing else. From then on, until a
   * right PIN, there is neither a session key nor a token, and no command passes a token gate.
   */
  lemma PowerCycleLocks(d: Device, s: State, cs: seq<Command>)
    requires d.Lawful() && TypedRun(cs) && Sized(s) && s.pin.Some?
    requires NoRightPin(d, Step(d, s, PowerCycle).0, cs)
    ensures var off := Step(d, s, PowerCycle).0;
      && off == State(s.pin, s.minPin, s.mkek, s.keydev, Fill(0, 32), 0, false, Token(false, 0, None, false, false))
      && Locked(Run(d, off, cs))
      && (cs != [] ==> OutcomeOf(d, off, cs, |cs| - 1).passage == NoPassage)
  {
    RunLocked(d, Step(d, s, PowerCycle).0, cs);
  }

  // ---------- PIN commands ----------

  /** Complete, under protocol 1 or 2, with a key agreement that succeeds. */
  predicate Agreed(e: Envelope) {
    e.complete && e.protocol in {1, 2} && e.agreed
  }

  /** The new PIN that a command brings: the bytes before the first NUL. */
  function NewPin(c: Command): (pin: octets)
    requires (c.SetPin? || c.ChangePin?) && Typed(c) && c.newPin.plain.Some?
    ensures |pin| <= 64 && pin <= c.newPin.plain.value && (forall k :: 0 <= k < |pin| ==> pin[k] != 0)
    ensures |pin| < 64 ==> c.newPin.plain.value[|pin|] == 0
  {
    c.newPin.plain.value[..PinLength(c.newPin.plain.value)]
  }

  /** The PIN file is that of the PIN. */
  predicate Accepts(d: Device, s: State, pin: octets) {
    && s.pin.Some? && s.pin.value.verifier == d.suite.doubleHash(d.suite.pinHash(pin))
    && s.pin.value.length as nat == |pin|
  }

  /** The encrypted parameter has n bytes, and an IV in protocol 2. */
  predicate HasLength(e: Envelope, p: Sealed, n: nat) {
    p.length == if e.protocol == 1 then n else n + 16
  }

  /** setPIN succeeds exactly without a PIN, on an authentic request with a PIN of the minimum length. */
  lemma SetPinExactly(d: Device, s: State, c: Command)
    requires c.SetPin? && Typed(c) && Sized(s)
    ensures var (s', o) := Step(d, s, c);
      && (o.status == Success <==>
            && Agreed(c.envelope) && c.envelope.macOk && HasLength(c.envelope, c.newPin, 64) && s.pin.None?
            && c.newPin.plain.Some? && c.newPin.plain.value[63] == 0 && |NewPin(c)| >= MinPinLength(s) as nat)
      && (o.status == Success ==>
            Accepts(d, s', NewPin(c)) && s'.pin.value.retries == 8 && s'.minPin == s.minPin && s'.token == s.token)
      && (o.status != Success ==> s' == s)
  {
    SetPinShape(d, s, c);
  }

  /** An attempt with that hash is made and is right: the request is in order, there are retries, and the hash fits. */
  predicate RightAttempt(d: Device, s: State, pinHash: Sealed) {
    && s.pin.Some? && s.pin.value.retries > 0
    && pinHash.plain.Some? && d.suite.doubleHash(pinHash.plain.value) == s.pin.value.verifier
  }

  predicate ChangeInOrder(c: Command)
    requires c.ChangePin?
  {
    && Agreed(c.envelope) && c.envelope.macOk
    && HasLength(c.envelope, c.newPin, 64) && HasLength(c.envelope, c.pinHash, 16)
  }

  lemma ChangePinTries(d: Device, s: State, c: Command)
    requires c.ChangePin? && Typed(c) && Sized(s)
    ensures var o := Step(d, s, c).1;
      && (o.attempt != NotTried <==> ChangeInOrder(c) && s.pin.Some? && s.pin.value.retries > 0)
      && (o.attempt == Right <==> ChangeInOrder(c) && RightAttempt(d, s, c.pinHash))
  {
    ChangePinShape(d, s, c);
    if Step(d, s, c).1.attempt != NotTried {
      TryPinShape(d, s, c.pinHash.plain);
    }
  }

  /** The new PIN may replace the one there is. */
  predicate Replaces(d: Device, s: State, c: Command)
    requires c.ChangePin? && Typed(c) && s.pin.Some?
  {
    && c.newPin.plain.Some? && c.newPin.plain.value[63] == 0 && |NewPin(c)| >= MinPinLength(s) as nat
    && (Forced(s) ==> d.suite.doubleHash(d.suite.pinHash(NewPin(c))) != s.pin.value.verifier)
  }

  lemma ReplacePinExactly(d: Device, s: State, c: Command, raw: octets)
    requires c.ChangePin? && Typed(c) && Sized(s) && s.pin.Some? && c.newPin.plain.Some? && Unlocked(d, s, raw)
    ensures var (s', o) := ReplacePin(d, s, c.newPin.plain.value);
      && (o.status == Success <==> Replaces(d, s, c))
      && (o.status == Success ==>
            Accepts(d, s', NewPin(c)) && s'.pin.value.retries == 8 && !Forced(s') && MinPinLength(s') == MinPinLength(s)
            && s'.token == s.token.(permissions := 0))
      && (o.status != Success ==> s' == s)
  {
  }

  /** changePIN succeeds exactly on an authentic request with the right PIN and a new one that may replace it. */
  lemma ChangePinExactly(d: Device, s: State, c: Command, raw: octets, key: octets)
    requires d.Lawful() && c.ChangePin? && Typed(c) && KeyHeld(d, s, raw, key)
    ensures var (s', o) := Step(d, s, c);
      && (o.status == Success <==> ChangeInOrder(c) && RightAttempt(d, s, c.pinHash) && Replaces(d, s, c))
      && (o.status == Success ==>
            Accepts(d, s', NewPin(c)) && s'.pin.value.retries == 8 && !Forced(s') && MinPinLength(s') == MinPinLength(s)
            && s'.token.permissions == 0)
      && (o.status != Success && s.pin.Some? ==>
            s'.pin.Some? && s'.pin.value.(retries := s.pin.value.retries) == s.pin.value)
  {
    ChangePinShape(d, s, c);
    ChangePinTries(d, s, c);
    if Step(d, s, c).1.attempt != NotTried {
      TryPinShape(d, s, c.pinHash.plain);
      if Step(d, s, c).1.attempt == Right {
        MatchedUnlocked(d, s, c, raw, key);
        if c.newPin.plain.Some? {
          ReplacePinExactly(d, Matched(d, s, c), c, raw);
        }
      }
    }
  }

  lemma MatchedUnlocked(d: Device, s: State, c: Command, raw: octets, key: octets)
    requires d.Lawful() && c.ChangePin? && Typed(c) && KeyHeld(d, s, raw, key) && RightAttempt(d, s, c.pinHash)
    ensures var s1 := Matched(d, s, c);
      Sized(s1) && Unlocked(d, s1, raw) && s1.pin.Some? && s1.pin.value == s.pin.value.(retries := MAX_PIN_RETRIES)
      && s1.minPin == s.minPin && s1.token == s.token
  {
    TryPinShape(d, s, c.pinHash.plain);
    var s1 := Matched(d, s, c);
    SamePinKeepsKey(d, s, s1, raw, key);
    RightPinUnlocks(d, s1, raw, key, c.pinHash.plain.value);
  }

  /** A token request in order: permissions in the newer subcommand, neither they nor an RP in the older. */
  predicate TokenInOrder(c: Command)
    requires c.GetToken?
  {
    && Agreed(c.envelope)
    && (if c.withPermissions then c.permissions != 0 && c.permissions & 0x08 == 0
        else c.permissions == 0 && c.rpAsked.None?)
  }

  /**
   * getPinUvAuthToken issues a token exactly on the right PIN, unless it must be changed: with the low
   * byte of the permissions asked for, or makeCredential and getAssertion in the older subcommand.
   */
  lemma GetTokenExactly(d: Device, s: State, c: Command)
    requires c.GetToken? && Typed(c) && Sized(s)
    ensures var (s', o) := Step(d, s, c);
      && (o.attempt != NotTried <==> TokenInOrder(c) && s.pin.Some? && s.pin.value.retries > 0)
      && (o.attempt == Right <==> TokenInOrder(c) && RightAttempt(d, s, c.pinHash))
      && (o.passage == Issued <==> TokenInOrder(c) && RightAttempt(d, s, c.pinHash) && !Forced(s))
      && (o.status == Success <==> o.passage == Issued)
      && (o.passage == Issued ==>
            && s'.token == Token(true, s'.token.permissions, c.rpAsked, false, true)
            && s'.token.permissions == if c.withPermissions then (c.permissions & 0xFF) as bv8 else 0x03)
      && (o.passage != Issued ==> s'.token == s.token)
  {
    GetTokenShape(d, s, c);
    if Step(d, s, c).1.attempt != NotTried {
      TryPinShape(d, s, c.pinHash.plain);
    }
  }

  /**
   * A wrong PIN is reported as blocked when it took the last try, as blocked until power-up from the
   * third mismatch on, and else as invalid; what does not decrypt is no mismatch.
   */
  lemma WrongPinReported(d: Device, s: State, c: Command)
    requires (c.ChangePin? || c.GetToken?) && Typed(c) && Sized(s) && Step(d, s, c).1.attempt != Right
    requires Step(d, s, c).1.attempt != NotTried && s.mismatches < 255
    ensures var (s', o) := Step(d, s, c);
      && s.pin.Some? && s.pin.value.retries > 0
      && o.status == (if o.attempt == Undecryptable then PinAuthInvalid
                      else if s.pin.value.retries == 1 then PinBlocked
                      else if s.mismatches >= 2 then PinAuthBlocked else PinInvalid)
      && (s'.needsPowerCycle <==> s.needsPowerCycle || o.status == PinAuthBlocked)
  {
    if c.ChangePin? {
      ChangePinShape(d, s, c);
    } else {
      GetTokenShape(d, s, c);
    }
    WrongTry(d, s, c.pinHash.plain);
  }

  lemma WrongTry(d: Device, s: State, pinHash: Option<octets>)
    requires s.pin.Some? && s.pin.value.retries > 0 && s.mismatches < 255 && TryPin(d, s, pinHash).1.attempt != Right
    ensures var (s', o) := TryPin(d, s, pinHash);
      && o.status == (if o.attempt == Undecryptable then PinAuthInvalid
                      else if s.pin.value.retries == 1 then PinBlocked
                      else if s.mismatches >= 2 then PinAuthBlocked else PinInvalid)
      && (s'.needsPowerCycle <==> s.needsPowerCycle || o.status == PinAuthBlocked)
  {
  }

  // ---------- the PIN that works ----------

  /** The command sets a PIN. */
  predicate Sets(c: Command, o: Outcome) {
    (c.SetPin? || c.ChangePin?) && o.status == Success && c.newPin.plain.Some?
  }

  /** The PIN that was last set successfully. */
  function LastPin(d: Device, s: State, cs: seq<Command>): Option<octets>
    requires d.Lawful() && TypedRun(cs) && Sized(s)
  {
    if cs == [] then None
    else
      var n := |cs| - 1;
      if Sets(cs[n], OutcomeOf(d, s, cs, n)) then Some(NewPin(cs[n])) else LastPin(d, s, cs[..n])
  }

  /** A command that sets a PIN makes it the one that is accepted; any other leaves that as it is. */
  lemma StepPin(d: Device, s: State, c: Command, raw: octets, key: octets)
    requires d.Lawful() && Typed(c) && KeyHeld(d, s, raw, key)
    ensures var (s', o) := Step(d, s, c);
      && (Sets(c, o) ==> Accepts(d, s', NewPin(c)) && s'.pin.value.retries == 8)
      && (!Sets(c, o) ==>
            if s.pin.None? then s'.pin.None?
            else s'.pin.Some? && s'.pin.value.(retries := s.pin.value.retries) == s.pin.value)
  {
    match c
    case SetPin(_, _) => SetPinExactly(d, s, c);
    case ChangePin(_, _, _) =>
      ChangePinExactly(d, s, c, raw, key);
      ChangePinShape(d, s, c);
    case _ => StepRetries(d, s, c);
              OtherStepPin(d, s, c);
  }

  lemma OtherStepPin(d: Device, s: State, c: Command)
    requires d.Lawful() && Typed(c) && Sized(s) && !c.SetPin? && !c.ChangePin?
    ensures var s' := Step(d, s, c).0;
      if s.pin.None? then s'.pin.None?
      else s'.pin.Some? && s'.pin.value.(retries := s.pin.value.retries) == s.pin.value
  {
    if c.GetToken? {
      GetTokenShape(d, s, c);
      if Step(d, s, c).1.attempt != NotTried {
        TryPinShape(d, s, c.pinHash.plain);
      }
    }
  }

  /** In every reachable state the PIN file accepts just the PIN that was last set. */
  lemma {:induction false} RunLastPin(d: Device, cs: seq<Command>, raw: octets, key: octets)
    requires d.Lawful() && TypedRun(cs) && |raw| == RAW_SIZE
    ensures var (s, last) := (Run(d, Scanned(d, raw, key), cs), LastPin(d, Scanned(d, raw, key), cs));
      if last.None? then s.pin.None? else Accepts(d, s, last.value)
  {
    if cs != [] {
      var n := |cs| - 1;
      RunLastPin(d, cs[..n], raw, key);
      RunKeepsKey(d, cs[..n], raw, key);
      StepPin(d, Run(d, Scanned(d, raw, key), cs[..n]), cs[n], raw, key);
    }
  }

  /**
   * In every reachable state with retries left: a token request in order is right exactly with a hash
   * that has the verifier of the PIN last set; any other is a wrong PIN.
   */
  lemma LastPinWorks(d: Device, cs: seq<Command>, c: Command, raw: octets, key: octets)
    requires d.Lawful() && TypedRun(cs) && |raw| == RAW_SIZE
    requires c.GetToken? && Typed(c) && TokenInOrder(c) && c.pinHash.plain.Some?
    requires LastPin(d, Scanned(d, raw, key), cs).Some?
    ensures var s := Run(d, Scanned(d, raw, key), cs);
      var pin := LastPin(d, Scanned(d, raw, key), cs).value;
      && s.pin.Some?
      && (s.pin.value.retries > 0 ==>
            Step(d, s, c).1.attempt ==
              if d.suite.doubleHash(c.pinHash.plain.value) == d.suite.doubleHash(d.suite.pinHash(pin)) then Right
              else Wrong)
  {
    var s := Run(d, Scanned(d, raw, key), cs);
    RunLastPin(d, cs, raw, key);
    GetTokenExactly(d, s, c);
    GetTokenShape(d, s, c);
    TryPinShape(d, s, c.pinHash.plain);
  }

  /** Right after a PIN was set, a token is issued on its hash, and on no hash with another verifier. */
  lemma NewPinIssues(d: Device, cs: seq<Command>, first: Command, c: Command, raw: octets, key: octets)
    requires d.Lawful() && TypedRun(cs) && Typed(first) && |raw| == RAW_SIZE
    requires Sets(first, Step(d, Run(d, Scanned(d, raw, key), cs), first).1)
    requires c.GetToken? && Typed(c) && TokenInOrder(c) && c.pinHash.plain.Some?
    ensures var s := Step(d, Run(d, Scanned(d, raw, key), cs), first).0;
      Sized(s)
      && (Step(d, s, c).1.passage == Issued
          <==> d.suite.doubleHash(c.pinHash.plain.value) == d.suite.doubleHash(d.suite.pinHash(NewPin(first))))
  {
    var before := Run(d, Scanned(d, raw, key), cs);
    RunKeepsKey(d, cs, raw, key);
    RunCompliant(d, cs, raw, key);
    StepSized(d, before, first);
    StepPin(d, before, first, raw, key);
    if first.SetPin? {
      SetPinExactly(d, before, first);
    } else {
      ChangePinExactly(d, before, first, raw, key);
    }
    GetTokenExactly(d, Step(d, before, first).0, c);
  }
}
