/**
 * The authenticator as the firmware runs it: the flash files and global variables behind the PIN, the
 * MKEK and the pinUvAuthToken, rewritten step by step by the command handlers.
 */
module Authenticator {
  import opened Bytes
  import opened Kek
  import opened ClientPin
  import opened PinTheorems
  import opened PinPolicy
  import opened TokenAuthority

  /** The original keys are held, the PIN policy is kept, and a token in use means an unlocked MKEK. */
  ghost predicate Sane(d: Device, s: State, raw: octets, key: octets) {
    KeyHeld(d, s, raw, key) && Compliant(s) && TokenSane(s.token) && TokenUnlocked(d, s, raw)
  }

  /** After a command: what holds is kept, and a right PIN has unlocked the MKEK. */
  ghost predicate Served(d: Device, s: State, o: Outcome, raw: octets, key: octets) {
    Sane(d, s, raw, key) && (o.attempt == Right ==> Unlocked(d, s, raw))
  }

  class Authenticator {
    const device: Device
    var pin: Option<PinFile>
    var minPin: Option<MinPin>
    var mkek: octets
    var keydev: octets
    var sessionPin: octets
    var newPinMismatches: byte
    var needsPowerCycle: bool
    var paut: Token

    /** The MKEK and the device key as they were generated. */
    ghost const rawMkek: octets
    ghost const deviceKey: octets

    function Snapshot(): State
      reads this
    {
      State(pin, minPin, mkek, keydev, sessionPin, newPinMismatches, needsPowerCycle, paut)
    }

    /** What holds between commands. */
    ghost predicate Valid()
      reads this
    {
      device.Lawful() && Sane(device, Snapshot(), rawMkek, deviceKey)
    }

    /** What holds inside a command. */
    ghost predicate Ready()
      reads this
    {
      device.Lawful() && Sized(Snapshot())
    }

    /** `scan_files` on blank flash: a generated device key, and a random MKEK that encrypts it in place. */
    constructor (d: Device, key: octets, raw: octets)
      requires d.Lawful() && |raw| == RAW_SIZE
      ensures Valid() && device == d && rawMkek == raw && deviceKey == key && Snapshot() == Scanned(d, raw, key)
    {
      device := d;
      rawMkek, deviceKey := raw, key;
      var data := if d.otp.Some? then d.suite.cbcEncrypt(d.otp.value, key) else key;
      mkek := raw;
      keydev := d.suite.cfbEncrypt(raw[IV_SIZE..], raw[..IV_SIZE], data);
      pin, minPin := None, None;
      sessionPin, newPinMismatches, needsPowerCycle := NO_SESSION, 0, false;
      paut := NO_TOKEN;
    }

    /** `load_keydev`. */
    method LoadKeydev() returns (r: Result<octets>)
      requires Valid()
      ensures r == LoadDeviceKey(device.suite, device.otp, sessionPin, mkek, keydev)
      ensures Unlocked(device, Snapshot(), rawMkek) ==> r == Ok(deviceKey)
      ensures pin.None? ==> Unlocked(device, Snapshot(), rawMkek)
    {
      var raw :- LoadMkek(device.suite, device.otp, sessionPin, mkek);
      var data := device.suite.cfbDecrypt(raw[IV_SIZE..], raw[..IV_SIZE], keydev);
      if device.otp.Some? {
        data := device.suite.cbcDecrypt(device.otp.value, data);
      }
      return Ok(data);
    }

    method CheckMkek(ph: octets)
      requires Ready()
      modifies this`mkek, this`sessionPin
      ensures Snapshot() == CheckMkekEncrypted(device, old(Snapshot()), ph)
    {
      if |mkek| == RAW_SIZE {
        sessionPin := device.suite.hashMulti(ph);
        mkek := StoreMkek(device.suite, device.otp, sessionPin, mkek);
        sessionPin := NO_SESSION;
      }
    }

    /** Subcommand 0x03. */
    method SetPinCommand(e: Envelope, newPin: Sealed) returns (o: Outcome)
      requires Valid() && Typed(SetPin(e, newPin))
      modifies this
      ensures (Snapshot(), o) == Step(device, old(Snapshot()), SetPin(e, newPin))
      ensures Valid()
    {
      StepKeepsAll(device, Snapshot(), SetPin(e, newPin), rawMkek, deviceKey);
      o := Outcome(Success, NotTried, NoPassage);
      if !e.complete || e.protocol == 0 {
        return o.(status := MissingParameter);
      }
      if e.protocol != 1 && e.protocol != 2 {
        return o.(status := InvalidParameter);
      }
      if pin.Some? {
        return o.(status := NotAllowed);
      }
      if newPin.length != (if e.protocol == 1 then 64 else 64 + IV_SIZE) {
        return o.(status := InvalidParameter);
      }
      if !e.agreed {
        return o.(status := InvalidParameter);
      }
      if !e.macOk {
        return o.(status := PinAuthInvalid);
      }
      if newPin.plain.None? {
        return o.(status := PinAuthInvalid);
      }
      var padded := newPin.plain.value;
      if padded[63] != 0 {
        return o.(status := PinPolicyViolation);
      }
      var n := MeasurePin(padded);
      var min := if minPin.Some? then minPin.value.length else DEFAULT_MIN_PIN;
      if n < min {
        return o.(status := PinPolicyViolation);
      }
      var dhash := device.suite.pinHash(padded[..n]);
      pin := Some(PinFile(MAX_PIN_RETRIES, n, device.suite.doubleHash(dhash)));
      CheckMkek(dhash);
    }

    /** The attempt at the start of changePIN and getPinUvAuthToken: the charge, the comparison, the mismatch count. */
    method TryPinHash(pinHash: Option<octets>) returns (o: Outcome)
      requires pin.Some?
      modifies this`pin, this`newPinMismatches, this`needsPowerCycle
      ensures (Snapshot(), o) == TryPin(device, old(Snapshot()), pinHash)
    {
      pin := Some(pin.value.(retries := Byte(pin.value.retries as int - 1)));
      var retries := pin.value.retries;
      if pinHash.None? {
        return Outcome(PinAuthInvalid, Undecryptable, NoPassage);
      }
      if device.suite.doubleHash(pinHash.value) != pin.value.verifier {
        if retries == 0 {
          return Outcome(PinBlocked, Wrong, NoPassage);
        }
        newPinMismatches := Byte(newPinMismatches as int + 1);
        if newPinMismatches >= 3 {
          needsPowerCycle := true;
          return Outcome(PinAuthBlocked, Wrong, NoPassage);
        }
        return Outcome(PinInvalid, Wrong, NoPassage);
      }
      return Outcome(Success, Right, NoPassage);
    }

    /** Subcommand 0x04. */
    method ChangePinCommand(e: Envelope, pinHash: Sealed, newPin: Sealed) returns (o: Outcome)
      requires Valid() && Typed(ChangePin(e, pinHash, newPin))
      modifies this
      ensures (Snapshot(), o) == Step(device, old(Snapshot()), ChangePin(e, pinHash, newPin))
      ensures Valid() && Served(device, Snapshot(), o, rawMkek, deviceKey)
    {
      StepKeepsAll(device, Snapshot(), ChangePin(e, pinHash, newPin), rawMkek, deviceKey);
      o := Outcome(Success, NotTried, NoPassage);
      if !e.complete || e.protocol == 0 {
        return o.(status := MissingParameter);
      }
      if e.protocol != 1 && e.protocol != 2 {
        return o.(status := InvalidParameter);
      }
      if pin.None? {
        return o.(status := PinNotSet);
      }
      if pin.value.retries == 0 {
        return o.(status := PinBlocked);
      }
      var iv := if e.protocol == 1 then 0 else IV_SIZE;
      if newPin.length != 64 + iv || pinHash.length != 16 + iv || !e.agreed {
        return o.(status := InvalidParameter);
      }
      if !e.macOk {
        return o.(status := PinAuthInvalid);
      }
      o := TryPinHash(pinHash.plain);
      if o.attempt != Right {
        return;
      }
      sessionPin := device.suite.hashMulti(pinHash.plain.value);
      pin := Some(pin.value.(retries := MAX_PIN_RETRIES));
      newPinMismatches := 0;
      if newPin.plain.None? {
        return o.(status := PinAuthInvalid);
      }
      o := InstallPin(newPin.plain.value);
    }

    /** changePIN from the decrypted new PIN on. */
    method InstallPin(padded: octets) returns (o: Outcome)
      requires Ready() && pin.Some? && |padded| == 64
      modifies this
      ensures (Snapshot(), o) == ReplacePin(device, old(Snapshot()), padded)
    {
      o := Outcome(Success, Right, NoPassage);
      if padded[63] != 0 {
        return o.(status := InvalidParameter);
      }
      var n := MeasurePin(padded);
      var min := if minPin.Some? then minPin.value.length else DEFAULT_MIN_PIN;
      if n < min {
        return o.(status := PinPolicyViolation);
      }
      var dhash := device.suite.pinHash(padded[..n]);
      var file := PinFile(MAX_PIN_RETRIES, n, device.suite.doubleHash(dhash));
      if minPin.Some? && minPin.value.force && file.verifier == pin.value.verifier {
        return o.(status := PinPolicyViolation);
      }
      var raw := LoadMkek(device.suite, device.otp, sessionPin, mkek);
      if raw.Err? {
        return o.(status := raw.error);
      }
      StoreNewPin(file, dhash, raw.value);
    }

    /** The writes of a changePIN that passed every check. */
    method StoreNewPin(file: PinFile, dhash: octets, raw: octets)
      requires Ready() && |raw| == RAW_SIZE
      modifies this
      ensures var s := old(Snapshot());
        var session := device.suite.hashMulti(dhash);
        Snapshot() == s.(pin := Some(file),
                         mkek := Wrap(device.suite, device.otp, session, raw),
                         session := session,
                         minPin := if Forced(s) then Some(s.minPin.value.(force := false)) else s.minPin,
                         token := s.token.(permissions := 0))
    {
      pin := Some(file);
      CheckMkek(dhash);
      sessionPin := device.suite.hashMulti(dhash);
      mkek := StoreMkek(device.suite, device.otp, sessionPin, raw);
      if minPin.Some? && minPin.value.force {
        minPin := Some(minPin.value.(force := false));
      }
      paut := paut.(permissions := 0);
    }

    /** Subcommands 0x05 and 0x09 (with permissions). */
    method GetTokenCommand(e: Envelope, pinHash: Sealed, withPermissions: bool, permissions: bv64, rp: Option<octets>)
      returns (o: Outcome)
      requires Valid() && Typed(GetToken(e, pinHash, withPermissions, permissions, rp))
      modifies this
      ensures (Snapshot(), o) == Step(device, old(Snapshot()), GetToken(e, pinHash, withPermissions, permissions, rp))
      ensures Valid() && Served(device, Snapshot(), o, rawMkek, deviceKey)
    {
      StepKeepsAll(device, Snapshot(), GetToken(e, pinHash, withPermissions, permissions, rp), rawMkek, deviceKey);
      o := Outcome(Success, NotTried, NoPassage);
      if !e.complete || e.protocol == 0 {
        return o.(status := MissingParameter);
      }
      if e.protocol != 1 && e.protocol != 2 {
        return o.(status := InvalidParameter);
      }
      if !withPermissions {
        if permissions != 0 || rp.Some? {
          return o.(status := InvalidParameter);
        }
      } else {
        if permissions == 0 {
          return o.(status := InvalidParameter);
        }
        if permissions & BE != 0 {
          return o.(status := Unauthorized);
        }
      }
      if pin.None? {
        return o.(status := PinNotSet);
      }
      if pin.value.retries == 0 {
        return o.(status := PinBlocked);
      }
      if !e.agreed {
        return o.(status := InvalidParameter);
      }
      var granted := if withPermissions then LowByte(permissions) else MC | GA;
      o := TryAndIssue(pinHash.plain, granted, rp);
    }

    /** getPinUvAuthToken from the PIN attempt on. */
    method TryAndIssue(pinHash: Option<octets>, granted: bv8, rp: Option<octets>) returns (o: Outcome)
      requires Ready() && pin.Some?
      modifies this
      ensures var (tried, outcome) := TryPin(device, old(Snapshot()), pinHash);
        (Snapshot(), o) == if outcome.attempt != Right then (tried, outcome)
                           else IssueToken(device, tried, pinHash.value, granted, rp)
    {
      o := TryPinHash(pinHash);
      if o.attempt == Right {
        o := Issue(pinHash.value, granted, rp);
      }
    }

    /** getPinUvAuthToken from the matching PIN on. */
    method Issue(ph: octets, granted: bv8, rp: Option<octets>) returns (o: Outcome)
      requires Ready() && pin.Some?
      modifies this
      ensures (Snapshot(), o) == IssueToken(device, old(Snapshot()), ph, granted, rp)
    {
      CheckMkek(ph);
      sessionPin := device.suite.hashMulti(ph);
      pin := Some(pin.value.(retries := MAX_PIN_RETRIES));
      newPinMismatches := 0;
      if minPin.Some? && minPin.value.force {
        return Outcome(PinInvalid, Right, NoPassage);
      }
      paut := paut.(permissions := 0);
      BeginUsingPinUvAuthToken(false);
      paut := paut.(permissions := granted, rp := rp);
      return Outcome(Success, Right, Issued);
    }

    method BeginUsingPinUvAuthToken(userIsPresent: bool)
      modifies this`paut
      ensures paut == old(paut).(userPresent := userIsPresent, userVerified := true, inUse := true)
    {
      paut := paut.(userPresent := userIsPresent);
      paut := paut.(userVerified := true);
      paut := paut.(inUse := true);
    }

    method ClearUserPresentFlag()
      modifies this`paut
      ensures paut == if old(paut).inUse then old(paut).(userPresent := false) else old(paut)
    {
      if paut.inUse {
        paut := paut.(userPresent := false);
      }
    }

    method ClearUserVerifiedFlag()
      modifies this`paut
      ensures paut == if old(paut).inUse then old(paut).(userVerified := false) else old(paut)
    {
      if paut.inUse {
        paut := paut.(userVerified := false);
      }
    }

    method ClearPinUvAuthTokenPermissionsExceptLbw()
      modifies this`paut
      ensures paut == if old(paut).inUse then old(paut).(permissions := LBW) else old(paut)
    {
      if paut.inUse {
        paut := paut.(permissions := LBW);
      }
    }

    method GetUserPresentFlagValue() returns (b: bool)
      modifies this`paut
      ensures paut == PresenceRead(old(paut)) && b == paut.userPresent
    {
      if !paut.inUse {
        paut := paut.(userPresent := false);
      }
      b := paut.userPresent;
    }

    method GetUserVerifiedFlagValue() returns (b: bool)
      modifies this`paut
      ensures paut == FlagsRead(old(paut)) && b == paut.userVerified
    {
      if !paut.inUse {
        paut := paut.(userVerified := false);
      }
      b := paut.userVerified;
    }

    /** authenticatorConfig, subcommand 0x03. */
    method SetMinPinCommand(param: AuthParam, newMin: nat, force: Option<bool>) returns (o: Outcome)
      requires Valid()
      modifies this`minPin
      ensures (Snapshot(), o) == Step(device, old(Snapshot()), SetMinPin(param, newMin, force))
      ensures Valid()
    {
      StepKeepsAll(device, Snapshot(), SetMinPin(param, newMin, force), rawMkek, deviceKey);
      o := Outcome(Success, NotTried, NoPassage);
      if param.Absent? {
        return o.(status := PuatRequired);
      }
      if param.protocol == 0 {
        return o.(status := MissingParameter);
      }
      if !ConfigAuthentic(param) {
        return o.(status := PinAuthInvalid);
      }
      if paut.permissions & ACFG == 0 {
        return o.(status := PinAuthInvalid);
      }
      o := o.(passage := Configured);
      var current := if minPin.Some? then minPin.value.length else DEFAULT_MIN_PIN;
      var wanted := newMin;
      if wanted == 0 {
        wanted := current;
      } else if wanted < current {
        return o.(status := PinPolicyViolation);
      }
      if force == Some(true) && pin.None? {
        return o.(status := PinNotSet);
      }
      var forceChangePin := force == Some(true);
      if pin.Some? && pin.value.length < wanted {
        forceChangePin := true;
      }
      minPin := Some(MinPin(Byte(wanted), forceChangePin));
    }

    /** The refusals of a pinUvAuthParam at the start of makeCredential and getAssertion. */
    method CheckParam(p: AuthParam, touched: bool) returns (refusal: Option<Status>)
      ensures refusal == ParamRefusal(Snapshot(), p, touched)
    {
      if p.Blank? {
        if !touched {
          return Some(OperationDenied);
        }
        return Some(if pin.None? then PinNotSet else PinAuthInvalid);
      }
      if p.Given? && p.protocol == 0 {
        return Some(MissingParameter);
      }
      if p.Given? && p.protocol != 1 && p.protocol != 2 {
        return Some(InvalidParameter);
      }
      return None;
    }

    /** The token check of makeCredential, which binds an unbound token to the RP. */
    method PassMakeGate(param: AuthParam, rp: octets) returns (open: bool)
      modifies this`paut
      ensures paut == AfterMakeGate(old(paut), param, rp) && open == MakeGateOpen(old(paut), param, rp)
    {
      if !Authentic(param) || paut.permissions & MC == 0 || (paut.rp.Some? && paut.rp.value != rp) {
        return false;
      }
      open := GetUserVerifiedFlagValue();
      if open && paut.rp.None? {
        paut := paut.(rp := Some(rp));
      }
    }

    /** makeCredential, as far as the token goes. */
    method MakeCredentialCommand(param: AuthParam, rp: octets, uv: Option<bool>, up: Option<bool>, touched: bool,
                                 errors: Errors) returns (o: Outcome)
      requires Valid() && errors.Typed()
      modifies this`paut
      ensures (Snapshot(), o) == MakeCredentialStep(old(Snapshot()), MakeCredential(param, rp, uv, up, touched, errors))
      ensures Valid()
    {
      StepKeepsAll(device, Snapshot(), MakeCredential(param, rp, uv, up, touched, errors), rawMkek, deviceKey);
      o := Outcome(Success, NotTried, NoPassage);
      var refusal := CheckParam(param, touched);
      if refusal.Some? {
        return o.(status := refusal.value);
      }
      if errors.first.Some? {
        return o.(status := errors.first.value);
      }
      if uv == Some(true) || up.Some? {
        return o.(status := InvalidOption);
      }
      if param.Absent? && pin.Some? {
        return o.(status := PuatRequired);
      }
      if errors.beforeGate.Some? {
        return o.(status := errors.beforeGate.value);
      }
      if param.Given? {
        var open := PassMakeGate(param, rp);
        if !open {
          return o.(status := PinAuthInvalid);
        }
        o := o.(passage := MadeFor(rp));
      }
      if errors.afterGate.Some? {
        return o.(status := errors.afterGate.value);
      }
      if param.Given? {
        var present := GetUserPresentFlagValue();
        if !present && !touched {
          return o.(status := OperationDenied);
        }
      }
      if errors.last.Some? {
        return o.(status := errors.last.value);
      }
    }

    /** getAssertion, as far as the token goes. */
    method GetAssertionCommand(param: AuthParam, rp: octets, uv: Option<bool>, up: Option<bool>, rk: bool,
                               touched: bool, errors: Errors) returns (o: Outcome)
      requires Valid() && errors.Typed()
      modifies this`paut
      ensures (Snapshot(), o) == GetAssertionStep(old(Snapshot()), GetAssertion(param, rp, uv, up, rk, touched, errors))
      ensures Valid()
    {
      StepKeepsAll(device, Snapshot(), GetAssertion(param, rp, uv, up, rk, touched, errors), rawMkek, deviceKey);
      o := Outcome(Success, NotTried, NoPassage);
      if errors.first.Some? {
        return o.(status := errors.first.value);
      }
      var refusal := CheckParam(param, touched);
      if refusal.Some? {
        return o.(status := refusal.value);
      }
      if uv == Some(true) {
        return o.(status := InvalidOption);
      }
      if rk {
        return o.(status := UnsupportedOption);
      }
      if param.Given? {
        if !Authentic(param) {
          return o.(status := PinAuthInvalid);
        }
        var verified := GetUserVerifiedFlagValue();
        if !verified || paut.permissions & GA == 0 || (paut.rp.Some? && paut.rp.value != rp) {
          return o.(status := PinAuthInvalid);
        }
        o := o.(passage := AssertedFor(rp, false));
      }
      if errors.afterGate.Some? {
        return o.(status := errors.afterGate.value);
      }
      if up != Some(false) {
        var present := false;
        if param.Given? {
          present := GetUserPresentFlagValue();
        }
        if !present && !touched {
          return o.(status := OperationDenied);
        }
        ClearUserPresentFlag();
        ClearUserVerifiedFlag();
        ClearPinUvAuthTokenPermissionsExceptLbw();
        if param.Given? {
          o := o.(passage := AssertedFor(rp, true));
        }
      }
      if errors.last.Some? {
        return o.(status := errors.last.value);
      }
    }

    /** Power-up: the globals start over, the files stay. */
    method Reboot()
      requires Valid()
      modifies this
      ensures Snapshot() == Step(device, old(Snapshot()), PowerCycle).0
      ensures Valid()
    {
      StepKeepsAll(device, Snapshot(), PowerCycle, rawMkek, deviceKey);
      sessionPin, newPinMismatches, needsPowerCycle := NO_SESSION, 0, false;
      paut := NO_TOKEN;
    }
  }

  /** Every command keeps what the authenticator rests on. */
  lemma StepKeepsAll(d: Device, s: State, c: Command, raw: octets, key: octets)
    requires d.Lawful() && Typed(c) && Sane(d, s, raw, key)
    ensures Served(d, Step(d, s, c).0, Step(d, s, c).1, raw, key)
  {
    StepKeepsKey(d, s, c, raw, key);
    StepCompliant(d, s, c);
    StepTokenSane(d, s, c);
    StepTokenUnlocked(d, s, c, raw, key);
  }

  /** The loop that measures a padded PIN. */
  method MeasurePin(padded: octets) returns (n: nat)
    requires |padded| == 64
    ensures n == PinLength(padded)
  {
    n := 0;
    while n < |padded| && padded[n] != 0
      invariant n <= |padded|
      invariant forall k :: 0 <= k < n ==> padded[k] != 0
    {
      n := n + 1;
    }
  }
}
