/**
 * The PIN, its retry counter, the minimum PIN length, the wrapped MKEK and the pinUvAuthToken, as one
 * state that every command steps (sections 6.5 and 6.11 of CTAP 2.1). Decrypted parameters and the
 * outcomes of key agreement, MAC checks and user presence are inputs, so they may be anything.
 */
module ClientPin {
  import opened Bytes
  import opened Kek

  const MAX_PIN_RETRIES: byte := 8
  const DEFAULT_MIN_PIN: byte := 4
  const NO_SESSION: octets := Fill(0, 32)

  const MC: bv8 := 0x01
  const GA: bv8 := 0x02
  const CM: bv8 := 0x04
  const BE: bv64 := 0x08
  const LBW: bv8 := 0x10
  const ACFG: bv8 := 0x20

  datatype PinFile = PinFile(retries: byte, length: byte, verifier: octets)

  /** The minimum PIN length file; `force` is the force-change flag. */
  datatype MinPin = MinPin(length: byte, force: bool)

  datatype Token = Token(inUse: bool, permissions: bv8, rp: Option<octets>, userPresent: bool, userVerified: bool)

  const NO_TOKEN := Token(false, 0, None, false, false)

  datatype State = State(
    pin: Option<PinFile>,
    minPin: Option<MinPin>,
    mkek: octets,
    keydev: octets,
    session: octets,
    mismatches: byte,
    needsPowerCycle: bool,
    token: Token)

  /** The cryptography and the one-time-programmed key of one device. */
  datatype Device = Device(suite: Suite, otp: Option<octets>)
  {
    ghost predicate Lawful() {
      suite.Lawful() && (otp.Some? ==> |otp.value| == KEY_SIZE)
    }
  }

  // ---------- requests ----------

  /**
   * What setPIN, changePIN and getPinUvAuthToken share: whether every mandatory parameter is there,
   * the protocol number, and whether the key agreement and the MAC over the parameters succeed.
   */
  datatype Envelope = Envelope(complete: bool, protocol: nat, agreed: bool, macOk: bool)

  /** An encrypted parameter: its length on the wire, and what decrypts from it, if it decrypts. */
  datatype Sealed = Sealed(length: nat, plain: Option<octets>)

  /** A pinUvAuthParam: absent, of length zero, or with the outcome of its MAC check; and its protocol. */
  datatype AuthParam = Absent | Blank(protocol: nat) | Given(protocol: nat, macOk: bool)

  datatype Command =
    | SetPin(envelope: Envelope, newPin: Sealed)
    | ChangePin(envelope: Envelope, pinHash: Sealed, newPin: Sealed)
    | GetToken(envelope: Envelope, pinHash: Sealed, withPermissions: bool, permissions: bv64, rpAsked: Option<octets>)
    | SetMinPin(param: AuthParam, newMin: nat, force: Option<bool>)
    | MakeCredential(param: AuthParam, rp: octets, uv: Option<bool>, up: Option<bool>, touched: bool, errors: Errors)
    | GetAssertion(param: AuthParam, rp: octets, uv: Option<bool>, up: Option<bool>, rk: bool, touched: bool,
                   errors: Errors)
    | PowerCycle

  /**
   * The refusals of the two credential commands that have nothing to do with the token, by where they
   * occur: early on, just before the gate, between the gate and user presence, and at the end.
   */
  datatype Errors = Errors(first: Option<Status>, beforeGate: Option<Status>, afterGate: Option<Status>,
                           last: Option<Status>)
  {
    predicate Typed() {
      first != Some(Success) && beforeGate != Some(Success) && afterGate != Some(Success) && last != Some(Success)
    }
  }

  /** What the types of the C buffers say about a request. */
  predicate Typed(c: Command) {
    match c
    case SetPin(_, newPin) => newPin.plain.Some? ==> |newPin.plain.value| == 64
    case ChangePin(_, pinHash, newPin) =>
      && (pinHash.plain.Some? ==> |pinHash.plain.value| == 16)
      && (newPin.plain.Some? ==> |newPin.plain.value| == 64)
    case GetToken(_, pinHash, _, _, _) => pinHash.plain.Some? ==> |pinHash.plain.value| == 16
    case MakeCredential(_, _, _, _, _, errors) => errors.Typed()
    case GetAssertion(_, _, _, _, _, _, errors) => errors.Typed()
    case _ => true
  }

  /** What a step did with the PIN that was offered. */
  datatype Attempt = NotTried | Right | Wrong | Undecryptable

  /** Which token gate a step passed, and for whom. */
  datatype Passage = NoPassage | Issued | MadeFor(rp: octets) | AssertedFor(rp: octets, userPresent: bool) | Configured

  datatype Outcome = Outcome(status: Status, attempt: Attempt, passage: Passage)

  function Refuse(s: State, status: Status): (State, Outcome) {
    (s, Outcome(status, NotTried, NoPassage))
  }

  // ---------- PINs ----------

  /** The length of the C string in the padded PIN. */
  function PinLength(padded: octets): (n: nat)
    ensures n <= |padded|
    ensures forall k :: 0 <= k < n ==> padded[k] != 0
    ensures n < |padded| ==> padded[n] == 0
  {
    if padded == [] || padded[0] == 0 then 0 else 1 + PinLength(padded[1..])
  }

  function MinPinLength(s: State): byte {
    if s.minPin.Some? then s.minPin.value.length else DEFAULT_MIN_PIN
  }

  predicate Forced(s: State) {
    s.minPin.Some? && s.minPin.value.force
  }

  /** Both encrypted PINs have the length their protocol fixes. */
  predicate SealedLength(protocol: nat, s: Sealed, n: nat) {
    s.length == if protocol == 1 then n else n + IV_SIZE
  }

  /** `check_mkek_encrypted`: a raw MKEK is wrapped under the key of the PIN with hash ph. */
  function CheckMkekEncrypted(d: Device, s: State, ph: octets): State {
    if |s.mkek| != RAW_SIZE then s
    else s.(mkek := Wrap(d.suite, d.otp, d.suite.hashMulti(ph), s.mkek), session := NO_SESSION)
  }

  function NewPinFile(d: Device, padded: octets): PinFile
    requires |padded| == 64
  {
    var n := PinLength(padded);
    PinFile(MAX_PIN_RETRIES, n, d.suite.doubleHash(d.suite.pinHash(padded[..n])))
  }

  function SetPinStep(d: Device, s: State, c: Command): (State, Outcome)
    requires c.SetPin? && Typed(c)
  {
    var e := c.envelope;
    if !e.complete || e.protocol == 0 then Refuse(s, MissingParameter)
    else if e.protocol != 1 && e.protocol != 2 then Refuse(s, InvalidParameter)
    else if s.pin.Some? then Refuse(s, NotAllowed)
    else if !SealedLength(e.protocol, c.newPin, 64) || !e.agreed then Refuse(s, InvalidParameter)
    else if !e.macOk || c.newPin.plain.None? then Refuse(s, PinAuthInvalid)
    else
      var padded := c.newPin.plain.value;
      if padded[63] != 0 || PinLength(padded) < MinPinLength(s) then Refuse(s, PinPolicyViolation)
      else
        var s' := s.(pin := Some(NewPinFile(d, padded)));
        (CheckMkekEncrypted(d, s', d.suite.pinHash(padded[..PinLength(padded)])), Outcome(Success, NotTried, NoPassage))
  }

  /**
   * One PIN attempt, charged before it is looked at. On a match the caller resets the retries;
   * on a mismatch the status tells whether the PIN is blocked, or blocked until power-up.
   */
  function TryPin(d: Device, s: State, pinHash: Option<octets>): (State, Outcome)
    requires s.pin.Some?
  {
    var pin := s.pin.value.(retries := Byte(s.pin.value.retries as int - 1));
    var s1 := s.(pin := Some(pin));
    if pinHash.None? then (s1, Outcome(PinAuthInvalid, Undecryptable, NoPassage))
    else if d.suite.doubleHash(pinHash.value) == pin.verifier then (s1, Outcome(Success, Right, NoPassage))
    else if pin.retries == 0 then (s1, Outcome(PinBlocked, Wrong, NoPassage))
    else
      var s2 := s1.(mismatches := Byte(s1.mismatches as int + 1));
      if s2.mismatches >= 3 then (s2.(needsPowerCycle := true), Outcome(PinAuthBlocked, Wrong, NoPassage))
      else (s2, Outcome(PinInvalid, Wrong, NoPassage))
  }

  /** After a match: full retries again, and the session key of this PIN. */
  function Restore(d: Device, s: State, ph: octets): State
    requires s.pin.Some?
  {
    s.(pin := Some(s.pin.value.(retries := MAX_PIN_RETRIES)), mismatches := 0, session := d.suite.hashMulti(ph))
  }

  function ChangePinStep(d: Device, s: State, c: Command): (State, Outcome)
    requires c.ChangePin? && Typed(c) && Sized(s)
  {
    var e := c.envelope;
    if !e.complete || e.protocol == 0 then Refuse(s, MissingParameter)
    else if e.protocol != 1 && e.protocol != 2 then Refuse(s, InvalidParameter)
    else if s.pin.None? then Refuse(s, PinNotSet)
    else if s.pin.value.retries == 0 then Refuse(s, PinBlocked)
    else if !SealedLength(e.protocol, c.newPin, 64) || !SealedLength(e.protocol, c.pinHash, 16) || !e.agreed then
      Refuse(s, InvalidParameter)
    else if !e.macOk then Refuse(s, PinAuthInvalid)
    else
      var (tried, outcome) := TryPin(d, s, c.pinHash.plain);
      if outcome.attempt != Right then (tried, outcome)
      else
        var s1 := Restore(d, tried, c.pinHash.plain.value);
        if c.newPin.plain.None? then (s1, Outcome(PinAuthInvalid, Right, NoPassage))
        else ReplacePin(d, s1, c.newPin.plain.value)
  }

  /** The second half of changePIN: the new PIN's policy, then the PIN file and the MKEK under its key. */
  function ReplacePin(d: Device, s: State, padded: octets): (State, Outcome)
    requires s.pin.Some? && |padded| == 64 && Sized(s)
  {
    var n := PinLength(padded);
    var ph := d.suite.pinHash(padded[..n]);
    if padded[63] != 0 then (s, Outcome(InvalidParameter, Right, NoPassage))
    else if n < MinPinLength(s) || (Forced(s) && NewPinFile(d, padded).verifier == s.pin.value.verifier) then
      (s, Outcome(PinPolicyViolation, Right, NoPassage))
    else
      match Unwrap(d.suite, d.otp, s.session, s.mkek)
      case Err(e) => (s, Outcome(e, Right, NoPassage))
      case Ok(raw) =>
        var session := d.suite.hashMulti(ph);
        (s.(pin := Some(NewPinFile(d, padded)),
            mkek := Wrap(d.suite, d.otp, session, raw),
            session := session,
            minPin := if Forced(s) then Some(s.minPin.value.(force := false)) else s.minPin,
            token := s.token.(permissions := 0)),
         Outcome(Success, Right, NoPassage))
  }

  /** The MKEK file has one of its two sizes. */
  predicate Sized(s: State) {
    |s.mkek| == RAW_SIZE || |s.mkek| == WRAPPED_SIZE
  }

  /** Assignment to a `uint8_t`. */
  function LowByte(p: bv64): bv8 {
    (p & 0xFF) as bv8
  }

  /** The permissions a token gets: those asked for, or the two of the older subcommand. */
  function Granted(c: Command): bv8
    requires c.GetToken?
  {
    if c.withPermissions then LowByte(c.permissions) else MC | GA
  }

  function GetTokenStep(d: Device, s: State, c: Command): (State, Outcome)
    requires c.GetToken? && Typed(c)
  {
    var e := c.envelope;
    if !e.complete || e.protocol == 0 then Refuse(s, MissingParameter)
    else if e.protocol != 1 && e.protocol != 2 then Refuse(s, InvalidParameter)
    else if !c.withPermissions && (c.permissions != 0 || c.rpAsked.Some?) then Refuse(s, InvalidParameter)
    else if c.withPermissions && c.permissions == 0 then Refuse(s, InvalidParameter)
    else if c.withPermissions && c.permissions & BE != 0 then Refuse(s, Unauthorized)
    else if s.pin.None? then Refuse(s, PinNotSet)
    else if s.pin.value.retries == 0 then Refuse(s, PinBlocked)
    else if !e.agreed then Refuse(s, InvalidParameter)
    else
      var (tried, outcome) := TryPin(d, s, c.pinHash.plain);
      if outcome.attempt != Right then (tried, outcome)
      else IssueToken(d, tried, c.pinHash.plain.value, Granted(c), c.rpAsked)
  }

  /** The second half of getPinUvAuthToken: a raw MKEK is wrapped, and a token issued unless the PIN must change. */
  function IssueToken(d: Device, s: State, ph: octets, permissions: bv8, rp: Option<octets>): (State, Outcome)
    requires s.pin.Some?
  {
    var s1 := Restore(d, CheckMkekEncrypted(d, s, ph), ph);
    if Forced(s1) then (s1, Outcome(PinInvalid, Right, NoPassage))
    else (s1.(token := Token(true, permissions, rp, false, true)), Outcome(Success, Right, Issued))
  }

  // ---------- configuration ----------

  /** `verify` accepts what authenticatorConfig gives it: the low byte of the protocol number. */
  predicate ConfigAuthentic(p: AuthParam) {
    p.Given? && (p.protocol % 256 == 1 || p.protocol % 256 == 2) && p.macOk
  }

  /** Subcommand 0x03; `newMin` is a 64-bit parameter, of which one byte is stored. */
  function SetMinPinStep(s: State, c: Command): (State, Outcome)
    requires c.SetMinPin?
  {
    if c.param.Absent? then Refuse(s, PuatRequired)
    else if c.param.protocol == 0 then Refuse(s, MissingParameter)
    else if !ConfigAuthentic(c.param) || s.token.permissions & ACFG == 0 then Refuse(s, PinAuthInvalid)
    else
      var current := MinPinLength(s);
      var wanted := if c.newMin == 0 then current else c.newMin;
      if wanted < current then (s, Outcome(PinPolicyViolation, NotTried, Configured))
      else if c.force == Some(true) && s.pin.None? then (s, Outcome(PinNotSet, NotTried, Configured))
      else
        var force := c.force == Some(true) || (s.pin.Some? && s.pin.value.length < wanted);
        (s.(minPin := Some(MinPin(Byte(wanted), force))), Outcome(Success, NotTried, Configured))
  }

  // ---------- the token gates ----------

  /** `verify` accepts: one of the two protocols and a matching MAC. */
  predicate Authentic(p: AuthParam) {
    p.Given? && (p.protocol == 1 || p.protocol == 2) && p.macOk
  }

  /** The user flags are cleared when they are read while no token is in use. */
  function FlagsRead(t: Token): Token {
    if t.inUse then t else t.(userVerified := false)
  }

  function PresenceRead(t: Token): Token {
    if t.inUse then t else t.(userPresent := false)
  }

  /** The three clearing functions that end a user-present assertion. */
  function Spend(t: Token): Token {
    if t.inUse then t.(userPresent := false, userVerified := false, permissions := LBW) else t
  }

  predicate BoundElsewhere(t: Token, rp: octets) {
    t.rp.Some? && t.rp.value != rp
  }

  /** The refusals of a pinUvAuthParam that come before everything else. */
  function ParamRefusal(s: State, p: AuthParam, touched: bool): Option<Status> {
    match p
    case Absent => None
    case Blank(_) =>
      if !touched then Some(OperationDenied) else if s.pin.None? then Some(PinNotSet) else Some(PinAuthInvalid)
    case Given(protocol, _) =>
      if protocol == 0 then Some(MissingParameter)
      else if protocol != 1 && protocol != 2 then Some(InvalidParameter)
      else None
  }

  /** The gate of makeCredential, for a token with its flags as read: it also binds the token to the RP. */
  predicate MakeGateOpen(t: Token, p: AuthParam, rp: octets) {
    Authentic(p) && t.permissions & MC != 0 && !BoundElsewhere(t, rp) && FlagsRead(t).userVerified
  }

  /** The token after the gate of makeCredential; the flags are read only when all else is in order. */
  function AfterMakeGate(t: Token, p: AuthParam, rp: octets): Token {
    if !Authentic(p) || t.permissions & MC == 0 || BoundElsewhere(t, rp) then t
    else
      var t' := FlagsRead(t);
      if t'.userVerified then t'.(rp := Some(rp)) else t'
  }

  function MakeCredentialStep(s: State, c: Command): (State, Outcome)
    requires c.MakeCredential?
  {
    var e := c.errors;
    var refusal := ParamRefusal(s, c.param, c.touched);
    if refusal.Some? then Refuse(s, refusal.value)
    else if e.first.Some? then Refuse(s, e.first.value)
    else if c.uv == Some(true) || c.up.Some? then Refuse(s, InvalidOption)
    else if c.param.Absent? && s.pin.Some? then Refuse(s, PuatRequired)
    else if e.beforeGate.Some? then Refuse(s, e.beforeGate.value)
    else if c.param.Absent? then
      (s, Outcome(if e.afterGate.Some? then e.afterGate.value
                  else if e.last.Some? then e.last.value else Success, NotTried, NoPassage))
    else
      var s1 := s.(token := AfterMakeGate(s.token, c.param, c.rp));
      if !MakeGateOpen(s.token, c.param, c.rp) then Refuse(s1, PinAuthInvalid)
      else if e.afterGate.Some? then (s1, Outcome(e.afterGate.value, NotTried, MadeFor(c.rp)))
      else
        var s2 := s1.(token := PresenceRead(s1.token));
        if !s2.token.userPresent && !c.touched then (s2, Outcome(OperationDenied, NotTried, MadeFor(c.rp)))
        else (s2, Outcome(if e.last.Some? then e.last.value else Success, NotTried, MadeFor(c.rp)))
  }

  /** The gate of getAssertion, for a token with its flags as read. */
  predicate AssertGateOpen(t: Token, p: AuthParam, rp: octets) {
    Authentic(p) && FlagsRead(t).userVerified && t.permissions & GA != 0 && !BoundElsewhere(t, rp)
  }

  function GetAssertionStep(s: State, c: Command): (State, Outcome)
    requires c.GetAssertion?
  {
    var e := c.errors;
    var refusal := ParamRefusal(s, c.param, c.touched);
    var gated := c.param.Given?;
    var s1 := if Authentic(c.param) then s.(token := FlagsRead(s.token)) else s;
    if e.first.Some? then Refuse(s, e.first.value)
    else if refusal.Some? then Refuse(s, refusal.value)
    else if c.uv == Some(true) then Refuse(s, InvalidOption)
    else if c.rk then Refuse(s, UnsupportedOption)
    else if gated && !AssertGateOpen(s.token, c.param, c.rp) then Refuse(s1, PinAuthInvalid)
    else
      var early := if gated then AssertedFor(c.rp, false) else NoPassage;
      if e.afterGate.Some? then (s1, Outcome(e.afterGate.value, NotTried, early))
      else if c.up == Some(false) then
        (s1, Outcome(if e.last.Some? then e.last.value else Success, NotTried, early))
      else
        var s2 := if gated then s1.(token := PresenceRead(s1.token)) else s1;
        if !c.touched && !(gated && s2.token.userPresent) then (s2, Outcome(OperationDenied, NotTried, early))
        else
          (s2.(token := Spend(s2.token)),
           Outcome(if e.last.Some? then e.last.value else Success, NotTried,
                   if gated then AssertedFor(c.rp, true) else NoPassage))
  }

  // ---------- all commands ----------

  function Step(d: Device, s: State, c: Command): (State, Outcome)
    requires Typed(c) && Sized(s)
  {
    match c
    case SetPin(_, _) => SetPinStep(d, s, c)
    case ChangePin(_, _, _) => ChangePinStep(d, s, c)
    case GetToken(_, _, _, _, _) => GetTokenStep(d, s, c)
    case SetMinPin(_, _, _) => SetMinPinStep(s, c)
    case MakeCredential(_, _, _, _, _, _) => MakeCredentialStep(s, c)
    case GetAssertion(_, _, _, _, _, _, _) => GetAssertionStep(s, c)
    case PowerCycle =>
      (s.(session := NO_SESSION, mismatches := 0, needsPowerCycle := false, token := NO_TOKEN),
       Outcome(Success, NotTried, NoPassage))
  }

  /** After the first scan of a device without PIN: a raw MKEK, and the device key under it. */
  function Scanned(d: Device, raw: octets, key: octets): State
    requires |raw| == RAW_SIZE
  {
    State(None, None, raw, DeviceKeyFile(d.suite, d.otp, raw, key), NO_SESSION, 0, false, NO_TOKEN)
  }
}
