/** What every run of PIN, configuration and credential commands keeps true of the PIN and of the MKEK. */
module PinTheorems {
  import opened Bytes
  import opened Kek
  import opened ClientPin

  predicate TypedRun(cs: seq<Command>) {
    forall i :: 0 <= i < |cs| ==> Typed(cs[i])
  }

  // ---------- the shape of a step ----------

  /** An attempt that fails only charges the PIN file and counts the mismatch. */
  lemma TryPinShape(d: Device, s: State, pinHash: Option<octets>)
    requires s.pin.Some?
    ensures var (s', o) := TryPin(d, s, pinHash);
      && s' == s.(pin := s'.pin, mismatches := s'.mismatches, needsPowerCycle := s'.needsPowerCycle)
      && s'.pin == Some(s.pin.value.(retries := Byte(s.pin.value.retries as int - 1)))
      && o.attempt != NotTried && o.passage == NoPassage
      && (o.attempt == Right <==> pinHash.Some? && d.suite.doubleHash(pinHash.value) == s.pin.value.verifier)
      && (o.attempt == Undecryptable <==> pinHash.None?)
      && (o.attempt != Right ==> o.status != Success)
  {
  }

  /** The state of changePIN right after its PIN matched. */
  function Matched(d: Device, s: State, c: Command): State
    requires c.ChangePin? && s.pin.Some? && c.pinHash.plain.Some?
  {
    Restore(d, TryPin(d, s, c.pinHash.plain).0, c.pinHash.plain.value)
  }

  /** changePIN either refuses, or fails the attempt, or goes on with the new PIN under the current session. */
  lemma ChangePinShape(d: Device, s: State, c: Command)
    requires c.ChangePin? && Typed(c) && Sized(s)
    ensures var (s', o) := ChangePinStep(d, s, c);
      if o.attempt == NotTried then s' == s && o.status != Success && o.passage == NoPassage
      else
        && s.pin.Some? && s.pin.value.retries > 0
        && TryPin(d, s, c.pinHash.plain).1.attempt == o.attempt
        && (if o.attempt != Right then (s', o) == TryPin(d, s, c.pinHash.plain)
            else if c.newPin.plain.None? then (s', o) == (Matched(d, s, c), Outcome(PinAuthInvalid, Right, NoPassage))
            else (s', o) == ReplacePin(d, Matched(d, s, c), c.newPin.plain.value))
  {
  }

  /** The state of getPinUvAuthToken after its PIN matched, before any token is issued. */
  function Unlocking(d: Device, s: State, c: Command): State
    requires c.GetToken? && s.pin.Some? && c.pinHash.plain.Some?
  {
    var ph := c.pinHash.plain.value;
    Restore(d, CheckMkekEncrypted(d, TryPin(d, s, c.pinHash.plain).0, ph), ph)
  }

  lemma IssueTokenShape(d: Device, s: State, ph: octets, permissions: bv8, rp: Option<octets>)
    requires s.pin.Some?
    ensures var (s', o) := IssueToken(d, s, ph, permissions, rp);
      && o.attempt == Right
      && s'.(token := s.token) == Restore(d, CheckMkekEncrypted(d, s, ph), ph)
      && o.passage == (if !Forced(s) then Issued else NoPassage)
      && s'.token == (if o.passage == Issued then Token(true, permissions, rp, false, true) else s.token)
  {
  }

  lemma GetTokenShape(d: Device, s: State, c: Command)
    requires c.GetToken? && Typed(c)
    ensures var (s', o) := GetTokenStep(d, s, c);
      if o.attempt == NotTried then s' == s && o.status != Success && o.passage == NoPassage
      else
        && s.pin.Some? && s.pin.value.retries > 0
        && TryPin(d, s, c.pinHash.plain).1.attempt == o.attempt
        && (if o.attempt != Right then (s', o) == TryPin(d, s, c.pinHash.plain)
            else s'.(token := s.token) == Unlocking(d, s, c))
    ensures var (s', o) := GetTokenStep(d, s, c);
      && (o.passage == if o.attempt == Right && !Forced(s) then Issued else NoPassage)
      && s'.token == if o.passage == Issued then Token(true, Granted(c), c.rpAsked, false, true) else s.token
  {
    if GetTokenStep(d, s, c).1.attempt == Right {
      IssueTokenShape(d, TryPin(d, s, c.pinHash.plain).0, c.pinHash.plain.value, Granted(c), c.rpAsked);
    }
  }

  /** setPIN succeeds only without a PIN, or changes nothing. */
  lemma SetPinShape(d: Device, s: State, c: Command)
    requires c.SetPin? && Typed(c)
    ensures var (s', o) := SetPinStep(d, s, c);
      && o.attempt == NotTried && o.passage == NoPassage
      && (o.status != Success ==> s' == s)
      && (o.status == Success ==>
            && s.pin.None? && c.newPin.plain.Some?
            && var padded := c.newPin.plain.value;
               && padded[63] == 0 && PinLength(padded) >= MinPinLength(s)
               && s' == CheckMkekEncrypted(d, s.(pin := Some(NewPinFile(d, padded))),
                                           d.suite.pinHash(padded[..PinLength(padded)])))
  {
  }

  lemma WrapSized(d: Device, session: octets, raw: octets)
    requires d.Lawful() && |raw| == RAW_SIZE
    ensures |Wrap(d.suite, d.otp, session, raw)| == WRAPPED_SIZE
  {
    UnwrapWrap(d.suite, d.otp, session, raw);
  }

  lemma CheckedSized(d: Device, s: State, ph: octets)
    requires d.Lawful() && Sized(s)
    ensures Sized(CheckMkekEncrypted(d, s, ph))
  {
    if |s.mkek| == RAW_SIZE {
      WrapSized(d, d.suite.hashMulti(ph), s.mkek);
    }
  }

  lemma ReplacedSized(d: Device, s: State, padded: octets)
    requires d.Lawful() && Sized(s) && s.pin.Some? && |padded| == 64
    ensures Sized(ReplacePin(d, s, padded).0)
  {
    var raw := Unwrap(d.suite, d.otp, s.session, s.mkek);
    if raw.Ok? {
      WrapSized(d, d.suite.hashMulti(d.suite.pinHash(padded[..PinLength(padded)])), raw.value);
    }
  }

  lemma StepSized(d: Device, s: State, c: Command)
    requires d.Lawful() && Typed(c) && Sized(s)
    ensures Sized(Step(d, s, c).0)
  {
    match c
    case SetPin(_, _) =>
      SetPinShape(d, s, c);
      if SetPinStep(d, s, c).1.status == Success {
        var padded := c.newPin.plain.value;
        CheckedSized(d, s.(pin := Some(NewPinFile(d, padded))), d.suite.pinHash(padded[..PinLength(padded)]));
      }
    case ChangePin(_, _, _) =>
      ChangePinSized(d, s, c);
    case GetToken(_, _, _, _, _) =>
      GetTokenSized(d, s, c);
    case SetMinPin(_, _, _) => OthersKeepKey(d, s, c);
    case MakeCredential(_, _, _, _, _, _) => OthersKeepKey(d, s, c);
    case GetAssertion(_, _, _, _, _, _, _) => OthersKeepKey(d, s, c);
    case PowerCycle =>
  }

  lemma ChangePinSized(d: Device, s: State, c: Command)
    requires d.Lawful() && c.ChangePin? && Typed(c) && Sized(s)
    ensures Sized(ChangePinStep(d, s, c).0)
  {
    ChangePinShape(d, s, c);
    if ChangePinStep(d, s, c).1.attempt != NotTried {
      TryPinShape(d, s, c.pinHash.plain);
      if ChangePinStep(d, s, c).1.attempt == Right && c.newPin.plain.Some? {
        var s1 := Restore(d, TryPin(d, s, c.pinHash.plain).0, c.pinHash.plain.value);
        ReplacedSized(d, s1, c.newPin.plain.value);
      }
    }
  }

  lemma GetTokenSized(d: Device, s: State, c: Command)
    requires d.Lawful() && c.GetToken? && Typed(c) && Sized(s)
    ensures Sized(GetTokenStep(d, s, c).0)
  {
    GetTokenShape(d, s, c);
    if GetTokenStep(d, s, c).1.attempt != NotTried {
      TryPinShape(d, s, c.pinHash.plain);
      if GetTokenStep(d, s, c).1.attempt == Right {
        CheckedSized(d, TryPin(d, s, c.pinHash.plain).0, c.pinHash.plain.value);
      }
    }
  }

  /** Configuration and credential commands leave the PIN, the MKEK and the session alone. */
  lemma OthersKeepKey(d: Device, s: State, c: Command)
    requires Typed(c) && Sized(s) && (c.SetMinPin? || c.MakeCredential? || c.GetAssertion?)
    ensures var s' := Step(d, s, c).0;
      && s' == s.(minPin := s'.minPin, token := s'.token)
      && (!c.SetMinPin? ==> s'.minPin == s.minPin)
    ensures Step(d, s, c).1.attempt == NotTried && Step(d, s, c).1.passage != Issued
  {
  }

  // ---------- runs ----------

  /** The state after a run. */
  function Run(d: Device, s: State, cs: seq<Command>): (r: State)
    requires d.Lawful() && TypedRun(cs) && Sized(s)
    ensures Sized(r)
  {
    if cs == [] then s
    else
      var before := Run(d, s, cs[..|cs| - 1]);
      StepSized(d, before, cs[|cs| - 1]);
      Step(d, before, cs[|cs| - 1]).0
  }

  /** The outcome of command i of a run. */
  function OutcomeOf(d: Device, s: State, cs: seq<Command>, i: nat): Outcome
    requires d.Lawful() && TypedRun(cs) && Sized(s) && i < |cs|
  {
    Step(d, Run(d, s, cs[..i]), cs[i]).1
  }

  // ---------- the master key survives ----------

  /** The MKEK file is `raw` wrapped under the key of the PIN that `verifier` accepts. */
  ghost predicate WrappedForPin(d: Device, s: State, raw: octets)
    requires |raw| == RAW_SIZE && s.pin.Some?
  {
    exists ph :: d.suite.doubleHash(ph) == s.pin.value.verifier
              && s.mkek == Wrap(d.suite, d.otp, d.suite.hashMulti(ph), raw)
  }

  /** The MKEK file holds `raw`, raw or wrapped under the current PIN, and the device key file `key` under it. */
  ghost predicate KeyHeld(d: Device, s: State, raw: octets, key: octets) {
    && |raw| == RAW_SIZE && Sized(s)
    && s.keydev == DeviceKeyFile(d.suite, d.otp, raw, key)
    && (s.mkek == raw || (s.pin.Some? && WrappedForPin(d, s, raw)))
  }

  /** `load_mkek` succeeds and gives back `raw`. */
  predicate Unlocked(d: Device, s: State, raw: octets)
    requires Sized(s)
  {
    Unwrap(d.suite, d.otp, s.session, s.mkek) == Ok(raw)
  }

  /** The session key of a PIN that the verifier accepts unlocks the MKEK. */
  lemma RightPinUnlocks(d: Device, s: State, raw: octets, key: octets, ph: octets)
    requires d.Lawful() && KeyHeld(d, s, raw, key)
    requires s.pin.Some? && d.suite.doubleHash(ph) == s.pin.value.verifier
    requires s.session == d.suite.hashMulti(ph)
    ensures Unlocked(d, s, raw)
  {
    if s.mkek != raw {
      var ph' :| d.suite.doubleHash(ph') == s.pin.value.verifier
              && s.mkek == Wrap(d.suite, d.otp, d.suite.hashMulti(ph'), raw);
      assert d.suite.hashMulti(ph') == d.suite.hashMulti(ph);
      UnwrapWrap(d.suite, d.otp, d.suite.hashMulti(ph), raw);
    }
  }

  lemma WrapsForPin(d: Device, s: State, raw: octets, ph: octets)
    requires |raw| == RAW_SIZE && s.pin.Some? && d.suite.doubleHash(ph) == s.pin.value.verifier
    requires s.mkek == Wrap(d.suite, d.otp, d.suite.hashMulti(ph), raw)
    ensures WrappedForPin(d, s, raw)
  {
  }

  /**
   * The command keeps the master key, raw or wrapped under the current PIN. After a right PIN the MKEK
   * is unlocked, and it stays so but for a power cycle and the setPIN of a device without PIN.
   */
  ghost predicate KeepsKey(d: Device, s: State, c: Command, raw: octets, key: octets)
    requires Typed(c) && KeyHeld(d, s, raw, key)
  {
    var (s', o) := Step(d, s, c);
    && KeyHeld(d, s', raw, key)
    && (s.pin.Some? ==> s'.pin.Some?)
    && (o.attempt == Right ==> s'.pin.Some? && Unlocked(d, s', raw))
    && (Unlocked(d, s, raw) && !c.PowerCycle? && (s.pin.Some? || !c.SetPin?) ==> Unlocked(d, s', raw))
  }

  lemma SetPinKeepsKey(d: Device, s: State, c: Command, raw: octets, key: octets)
    requires d.Lawful() && c.SetPin? && Typed(c) && KeyHeld(d, s, raw, key)
    ensures KeepsKey(d, s, c, raw, key)
  {
    var (s', o) := SetPinStep(d, s, c);
    if o.status == Success {
      var padded := c.newPin.plain.value;
      CheckedSized(d, s, d.suite.pinHash(padded[..PinLength(padded)]));
      WrapsForPin(d, s', raw, d.suite.pinHash(padded[..PinLength(padded)]));
    }
  }

  /** Charging an attempt, or restoring the retries, does not touch what the key depends on. */
  lemma SamePinKeepsKey(d: Device, s: State, s': State, raw: octets, key: octets)
    requires KeyHeld(d, s, raw, key)
    requires s'.mkek == s.mkek && s'.keydev == s.keydev && s.pin.Some? == s'.pin.Some?
    requires s.pin.Some? ==> s'.pin.value.verifier == s.pin.value.verifier
    ensures KeyHeld(d, s', raw, key)
  {
    if s.mkek != raw {
      var ph :| d.suite.doubleHash(ph) == s.pin.value.verifier
             && s.mkek == Wrap(d.suite, d.otp, d.suite.hashMulti(ph), raw);
      WrapsForPin(d, s', raw, ph);
    }
  }

  lemma ReplacePinKeepsKey(d: Device, s: State, padded: octets, raw: octets, key: octets)
    requires d.Lawful() && KeyHeld(d, s, raw, key) && s.pin.Some? && |padded| == 64
    requires Unlocked(d, s, raw)
    ensures KeyHeld(d, ReplacePin(d, s, padded).0, raw, key)
    ensures Unlocked(d, ReplacePin(d, s, padded).0, raw)
  {
    var (s', o) := ReplacePin(d, s, padded);
    if o.status == Success {
      var ph := d.suite.pinHash(padded[..PinLength(padded)]);
      UnwrapWrap(d.suite, d.otp, d.suite.hashMulti(ph), raw);
      WrapsForPin(d, s', raw, ph);
    }
  }

  lemma MatchedPinKeepsKey(d: Device, s: State, c: Command, raw: octets, key: octets)
    requires d.Lawful() && c.ChangePin? && Typed(c) && KeyHeld(d, s, raw, key)
    requires ChangePinStep(d, s, c).1.attempt == Right
    ensures KeepsKey(d, s, c, raw, key)
  {
    ChangePinShape(d, s, c);
    TryPinShape(d, s, c.pinHash.plain);
    var ph := c.pinHash.plain.value;
    var s1 := Matched(d, s, c);
    SamePinKeepsKey(d, s, s1, raw, key);
    RightPinUnlocks(d, s1, raw, key, ph);
    if c.newPin.plain.Some? {
      ReplacePinKeepsKey(d, s1, c.newPin.plain.value, raw, key);
    }
  }

  lemma ChangePinKeepsKey(d: Device, s: State, c: Command, raw: octets, key: octets)
    requires d.Lawful() && c.ChangePin? && Typed(c) && KeyHeld(d, s, raw, key)
    ensures KeepsKey(d, s, c, raw, key)
  {
    var (s', o) := ChangePinStep(d, s, c);
    ChangePinShape(d, s, c);
    if o.attempt != NotTried {
      TryPinShape(d, s, c.pinHash.plain);
      var tried := TryPin(d, s, c.pinHash.plain).0;
      if o.attempt != Right {
        SamePinKeepsKey(d, s, tried, raw, key);
      } else {
        MatchedPinKeepsKey(d, s, c, raw, key);
      }
    }
  }

  /** Wrapping a raw MKEK on a right PIN. */
  lemma CheckKeepsKey(d: Device, s: State, ph: octets, raw: octets, key: octets)
    requires d.Lawful() && KeyHeld(d, s, raw, key) && s.pin.Some?
    requires d.suite.doubleHash(ph) == s.pin.value.verifier
    ensures KeyHeld(d, CheckMkekEncrypted(d, s, ph), raw, key)
  {
    CheckedSized(d, s, ph);
    if |s.mkek| == RAW_SIZE {
      RawIsRaw(d, s, raw, key);
      WrapsForPin(d, CheckMkekEncrypted(d, s, ph), raw, ph);
    }
  }

  lemma GetTokenKeepsKey(d: Device, s: State, c: Command, raw: octets, key: octets)
    requires d.Lawful() && c.GetToken? && Typed(c) && KeyHeld(d, s, raw, key)
    ensures KeepsKey(d, s, c, raw, key)
  {
    var (s', o) := GetTokenStep(d, s, c);
    GetTokenShape(d, s, c);
    if o.attempt != NotTried {
      TryPinShape(d, s, c.pinHash.plain);
      var tried := TryPin(d, s, c.pinHash.plain).0;
      SamePinKeepsKey(d, s, tried, raw, key);
      if o.attempt == Right {
        var ph := c.pinHash.plain.value;
        CheckKeepsKey(d, tried, ph, raw, key);
        SamePinKeepsKey(d, CheckMkekEncrypted(d, tried, ph), s', raw, key);
        RightPinUnlocks(d, s', raw, key, ph);
      }
    }
  }

  lemma RawIsRaw(d: Device, s: State, raw: octets, key: octets)
    requires d.Lawful() && KeyHeld(d, s, raw, key) && |s.mkek| == RAW_SIZE
    ensures s.mkek == raw
  {
    if s.mkek != raw {
      var ph :| d.suite.doubleHash(ph) == s.pin.value.verifier
             && s.mkek == Wrap(d.suite, d.otp, d.suite.hashMulti(ph), raw);
      UnwrapWrap(d.suite, d.otp, d.suite.hashMulti(ph), raw);
    }
  }

  /** The commands that touch neither PIN nor MKEK. */
  lemma UntriedKeepsKey(d: Device, s: State, c: Command, raw: octets, key: octets)
    requires d.Lawful() && !c.SetPin? && !c.ChangePin? && !c.GetToken?
    requires Typed(c) && KeyHeld(d, s, raw, key)
    ensures KeepsKey(d, s, c, raw, key)
  {
    if !c.PowerCycle? {
      OthersKeepKey(d, s, c);
    }
    SamePinKeepsKey(d, s, Step(d, s, c).0, raw, key);
  }

  /** Every command, refused or not, keeps the key. */
  lemma StepKeepsKey(d: Device, s: State, c: Command, raw: octets, key: octets)
    requires d.Lawful() && Typed(c) && KeyHeld(d, s, raw, key)
    ensures KeepsKey(d, s, c, raw, key)
  {
    match c
    case SetPin(_, _) =>
      SetPinKeepsKey(d, s, c, raw, key);
    case ChangePin(_, _, _) =>
      ChangePinKeepsKey(d, s, c, raw, key);
    case GetToken(_, _, _, _, _) =>
      GetTokenKeepsKey(d, s, c, raw, key);
    case _ =>
      UntriedKeepsKey(d, s, c, raw, key);
  }

  /** From the first scan on, no run loses the master key or the device key. */
  lemma {:induction false} RunKeepsKey(d: Device, cs: seq<Command>, raw: octets, key: octets)
    requires d.Lawful() && TypedRun(cs) && |raw| == RAW_SIZE
    ensures KeyHeld(d, Run(d, Scanned(d, raw, key), cs), raw, key)
  {
    if cs != [] {
      RunKeepsKey(d, cs[..|cs| - 1], raw, key);
      StepKeepsKey(d, Run(d, Scanned(d, raw, key), cs[..|cs| - 1]), cs[|cs| - 1], raw, key);
    }
  }

  /** The last right PIN of a run came after its last power cycle. */
  predicate PinShown(d: Device, s: State, cs: seq<Command>)
    requires d.Lawful() && TypedRun(cs) && Sized(s)
  {
    if cs == [] then false
    else
      var n := |cs| - 1;
      OutcomeOf(d, s, cs, n).attempt == Right || (PinShown(d, s, cs[..n]) && !cs[n].PowerCycle?)
  }

  /**
   * Once a PIN check has succeeded after power-up, `load_keydev` gives the originally generated key,
   * through every later command of the power cycle; and without a PIN it always does.
   */
  lemma {:induction false} RunUnlocks(d: Device, cs: seq<Command>, raw: octets, key: octets)
    requires d.Lawful() && TypedRun(cs) && |raw| == RAW_SIZE
    ensures var s := Run(d, Scanned(d, raw, key), cs);
      s.pin.None? || PinShown(d, Scanned(d, raw, key), cs) ==>
        Unlocked(d, s, raw) && LoadDeviceKey(d.suite, d.otp, s.session, s.mkek, s.keydev) == Ok(key)
    ensures PinShown(d, Scanned(d, raw, key), cs) ==> Run(d, Scanned(d, raw, key), cs).pin.Some?
  {
    var s0 := Scanned(d, raw, key);
    var s := Run(d, s0, cs);
    RunKeepsKey(d, cs, raw, key);
    if cs != [] {
      var n := |cs| - 1;
      RunUnlocks(d, cs[..n], raw, key);
      RunKeepsKey(d, cs[..n], raw, key);
      StepKeepsKey(d, Run(d, s0, cs[..n]), cs[n], raw, key);
    }
    if s.pin.None? || PinShown(d, s0, cs) {
      DeviceKeyLoads(d.suite, d.otp, s.session, s.mkek, raw, key);
    }
  }

  // ---------- after setPIN ----------

  /** A setPIN of a device with a raw MKEK wraps it, and leaves no session key to unwrap it with. */
  lemma SetPinLeavesNoSession(d: Device, s: State, c: Command)
    requires d.Lawful() && c.SetPin? && Typed(c) && |s.mkek| == RAW_SIZE
    requires SetPinStep(d, s, c).1.status == Success
    ensures var (s', ph) := (SetPinStep(d, s, c).0, NewPinHash(d, c));
      && s'.pin.Some? && d.suite.doubleHash(ph) == s'.pin.value.verifier
      && s'.mkek == Wrap(d.suite, d.otp, d.suite.hashMulti(ph), s.mkek)
      && s'.session == NO_SESSION
  {
  }

  /** The hash of the PIN that a setPIN brings. */
  function NewPinHash(d: Device, c: Command): octets
    requires c.SetPin? && c.newPin.plain.Some?
  {
    d.suite.pinHash(c.newPin.plain.value[..PinLength(c.newPin.plain.value)])
  }

  const ONES: octets := Fill(1, 32)

  /** Changes the last byte, under any key but the zeroed one. */
  function FlipLast(k: octets, iv: octets, x: octets): (r: octets)
    ensures |r| == |x|
  {
    if k == NO_SESSION || x == [] then x else x[..|x| - 1] + [x[|x| - 1] ^ 1]
  }

  lemma FlipTwice(k: octets, iv: octets, x: octets)
    ensures FlipLast(k, iv, FlipLast(k, iv, x)) == x
  {
  }

  /** A device that keeps every law the proofs rest on, with a session key that is not zero. */
  function PlainDevice(): Device {
    Device(Suite(FlipLast, FlipLast, (k, x) => x, (k, x) => x, x => ONES[..16], x => x, x => ONES), None)
  }

  lemma PlainDeviceLawful()
    ensures PlainDevice().Lawful()
  {
    forall k, iv, x
      ensures FlipLast(k, iv, FlipLast(k, iv, x)) == x
    {
      FlipTwice(k, iv, x);
    }
  }

  lemma FlippedChecksum(iv: octets, key: octets)
    requires |iv| == IV_SIZE && |key| == KEY_SIZE
    ensures var file := iv + FlipLast(ONES, iv, key + LittleEndian32(Crc(key)));
      |file| == WRAPPED_SIZE && Unwrap(PlainDevice().suite, None, NO_SESSION, file) == Err(WrongDkek)
  {
    var plain := key + LittleEndian32(Crc(key));
    var flipped := FlipLast(ONES, iv, plain);
    var file := iv + flipped;
    assert ONES[0] != NO_SESSION[0];
    assert file[IV_SIZE..] == flipped && flipped[..KEY_SIZE] == key;
    assert flipped[KEY_SIZE..][3] == LittleEndian32(Crc(key))[3] ^ 1;
  }

  /** On that device, as a fresh one, every successful setPIN makes the device key unavailable. */
  lemma SetPinLocks(c: Command, raw: octets, key: octets)
    requires c.SetPin? && Typed(c) && |raw| == RAW_SIZE
    requires SetPinStep(PlainDevice(), Scanned(PlainDevice(), raw, key), c).1.status == Success
    ensures PlainDevice().Lawful()
    ensures var (d, s') := (PlainDevice(), SetPinStep(PlainDevice(), Scanned(PlainDevice(), raw, key), c).0);
      Sized(s') && LoadDeviceKey(d.suite, d.otp, s'.session, s'.mkek, s'.keydev) == Err(WrongDkek)
  {
    PlainDeviceLawful();
    SetPinLeavesNoSession(PlainDevice(), Scanned(PlainDevice(), raw, key), c);
    FlippedChecksum(raw[..IV_SIZE], raw[IV_SIZE..]);
  }

  /** With a PIN and no session key, anything but a right PIN leaves the MKEK as it is, without a session key. */
  lemma StepStaysLocked(d: Device, s: State, c: Command)
    requires d.Lawful() && Typed(c) && Sized(s) && s.pin.Some? && s.session == NO_SESSION
    requires Step(d, s, c).1.attempt != Right
    ensures var s' := Step(d, s, c).0;
      s'.pin.Some? && s'.session == NO_SESSION && s'.mkek == s.mkek && s'.keydev == s.keydev
  {
    match c
    case SetPin(_, _) => SetPinShape(d, s, c);
    case ChangePin(_, _, _) =>
      ChangePinShape(d, s, c);
      TryPinShape(d, s, c.pinHash.plain);
    case GetToken(_, _, _, _, _) =>
      GetTokenShape(d, s, c);
      TryPinShape(d, s, c.pinHash.plain);
    case SetMinPin(_, _, _) => OthersKeepKey(d, s, c);
    case MakeCredential(_, _, _, _, _, _) => OthersKeepKey(d, s, c);
    case GetAssertion(_, _, _, _, _, _, _) => OthersKeepKey(d, s, c);
    case PowerCycle =>
  }

  /** No command of the run has been given the right PIN. */
  predicate NoRightPin(d: Device, s: State, cs: seq<Command>)
    requires d.Lawful() && TypedRun(cs) && Sized(s)
  {
    cs == [] || (NoRightPin(d, s, cs[..|cs| - 1]) && OutcomeOf(d, s, cs, |cs| - 1).attempt != Right)
  }

  lemma {:induction false} RunStaysLocked(d: Device, s: State, cs: seq<Command>)
    requires d.Lawful() && TypedRun(cs) && Sized(s) && s.pin.Some? && s.session == NO_SESSION
    requires NoRightPin(d, s, cs)
    ensures var s' := Run(d, s, cs);
      s'.pin.Some? && s'.session == NO_SESSION && s'.mkek == s.mkek && s'.keydev == s.keydev
  {
    if cs != [] {
      RunStaysLocked(d, s, cs[..|cs| - 1]);
      StepStaysLocked(d, Run(d, s, cs[..|cs| - 1]), cs[|cs| - 1]);
    }
  }

  /** On that device, through every later run without a right PIN, power cycles included. */
  lemma SetPinLocksRun(c: Command, cs: seq<Command>, raw: octets, key: octets)
    requires c.SetPin? && Typed(c) && TypedRun(cs) && |raw| == RAW_SIZE
    requires SetPinStep(PlainDevice(), Scanned(PlainDevice(), raw, key), c).1.status == Success
    requires PlainDevice().Lawful() && Sized(SetPinStep(PlainDevice(), Scanned(PlainDevice(), raw, key), c).0)
    requires NoRightPin(PlainDevice(), SetPinStep(PlainDevice(), Scanned(PlainDevice(), raw, key), c).0, cs)
    ensures var (d, s) := (PlainDevice(), SetPinStep(PlainDevice(), Scanned(PlainDevice(), raw, key), c).0);
      var s' := Run(d, s, cs);
      LoadDeviceKey(d.suite, d.otp, s'.session, s'.mkek, s'.keydev) == Err(WrongDkek)
  {
    SetPinLocks(c, raw, key);
    SetPinLeavesNoSession(PlainDevice(), Scanned(PlainDevice(), raw, key), c);
    RunStaysLocked(PlainDevice(), SetPinStep(PlainDevice(), Scanned(PlainDevice(), raw, key), c).0, cs);
  }
}
