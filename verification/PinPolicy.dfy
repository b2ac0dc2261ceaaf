/** The PIN length policy and the retry counter, over every run. */
module PinPolicy {
  import opened Bytes
  import opened Kek
  import opened ClientPin
  import opened PinTheorems

  // ---------- PIN length ----------

  /** A PIN shorter than the minimum is flagged for change, and the flag means there is a PIN. */
  predicate Compliant(s: State) {
    && (s.pin.Some? ==> s.pin.value.length >= MinPinLength(s) || Forced(s))
    && (Forced(s) ==> s.pin.Some?)
  }

  lemma ReplacePinCompliant(d: Device, s: State, padded: octets)
    requires Compliant(s) && Sized(s) && s.pin.Some? && |padded| == 64
    ensures Compliant(ReplacePin(d, s, padded).0)
    ensures ReplacePin(d, s, padded).1.status == Success ==>
      !Forced(ReplacePin(d, s, padded).0) && MinPinLength(ReplacePin(d, s, padded).0) == MinPinLength(s)
    ensures ReplacePin(d, s, padded).1.status != Success ==> ReplacePin(d, s, padded).0 == s
  {
  }

  lemma SetMinPinCompliant(s: State, c: Command)
    requires c.SetMinPin? && Compliant(s)
    ensures Compliant(SetMinPinStep(s, c).0) && SetMinPinStep(s, c).1.passage != Issued
  {
  }

  lemma ChangePinCompliant(d: Device, s: State, c: Command)
    requires c.ChangePin? && Typed(c) && Sized(s) && Compliant(s)
    ensures Compliant(ChangePinStep(d, s, c).0) && ChangePinStep(d, s, c).1.passage == NoPassage
  {
    ChangePinShape(d, s, c);
    if ChangePinStep(d, s, c).1.attempt != NotTried {
      TryPinShape(d, s, c.pinHash.plain);
      if ChangePinStep(d, s, c).1.attempt == Right && c.newPin.plain.Some? {
        ReplacePinCompliant(d, Matched(d, s, c), c.newPin.plain.value);
      }
    }
  }

  lemma GetTokenCompliant(d: Device, s: State, c: Command)
    requires c.GetToken? && Typed(c) && Compliant(s)
    ensures var (s', o) := GetTokenStep(d, s, c);
      && Compliant(s')
      && (o.passage == Issued ==> s'.pin.Some? && !Forced(s') && s'.pin.value.length >= MinPinLength(s'))
  {
    GetTokenShape(d, s, c);
    if GetTokenStep(d, s, c).1.attempt != NotTried {
      TryPinShape(d, s, c.pinHash.plain);
    }
  }

  /** Every command keeps the policy, and a token is issued only under a compliant PIN with the flag clear. */
  lemma StepCompliant(d: Device, s: State, c: Command)
    requires d.Lawful() && Typed(c) && Sized(s) && Compliant(s)
    ensures var (s', o) := Step(d, s, c);
      && Compliant(s')
      && (o.passage == Issued ==> s'.pin.Some? && !Forced(s') && s'.pin.value.length >= MinPinLength(s'))
  {
    match c
    case SetPin(_, _) => SetPinShape(d, s, c);
    case ChangePin(_, _, _) => ChangePinCompliant(d, s, c);
    case GetToken(_, _, _, _, _) => GetTokenCompliant(d, s, c);
    case SetMinPin(_, _, _) => SetMinPinCompliant(s, c);
    case MakeCredential(_, _, _, _, _, _) => OthersKeepKey(d, s, c);
    case GetAssertion(_, _, _, _, _, _, _) => OthersKeepKey(d, s, c);
    case PowerCycle =>
  }

  /** In every reachable state a set PIN has the minimum length or must be changed. */
  lemma {:induction false} RunCompliant(d: Device, cs: seq<Command>, raw: octets, key: octets)
    requires d.Lawful() && TypedRun(cs) && |raw| == RAW_SIZE
    ensures Compliant(Run(d, Scanned(d, raw, key), cs))
  {
    if cs != [] {
      RunCompliant(d, cs[..|cs| - 1], raw, key);
      StepCompliant(d, Run(d, Scanned(d, raw, key), cs[..|cs| - 1]), cs[|cs| - 1]);
    }
  }

  /** The guards of a granted request whose low byte is below the minimum. */
  predicate LowersMinPin(s: State, c: Command) {
    && c.SetMinPin? && ConfigAuthentic(c.param) && s.token.permissions & ACFG != 0
    && MinPinLength(s) <= c.newMin && !(c.force == Some(true) && s.pin.None?)
    && c.newMin % 256 < MinPinLength(s)
  }

  /**
   * The minimum PIN length never decreases - except through a request that a byte cannot hold: the
   * low byte of a granted request is what counts, so 256 makes the minimum 0.
   */
  lemma MinPinExact(d: Device, s: State, c: Command)
    requires d.Lawful() && Typed(c) && Sized(s)
    ensures MinPinLength(Step(d, s, c).0) < MinPinLength(s) <==> LowersMinPin(s, c)
    ensures c.SetMinPin? && c.newMin <= 255 ==> MinPinLength(Step(d, s, c).0) >= MinPinLength(s)
  {
    match c
    case SetPin(_, _) => SetPinShape(d, s, c);
    case ChangePin(_, _, _) =>
      ChangePinShape(d, s, c);
      if ChangePinStep(d, s, c).1.attempt != NotTried {
        TryPinShape(d, s, c.pinHash.plain);
      }
    case GetToken(_, _, _, _, _) =>
      GetTokenShape(d, s, c);
      if GetTokenStep(d, s, c).1.attempt != NotTried {
        TryPinShape(d, s, c.pinHash.plain);
      }
    case SetMinPin(_, _, _) =>
    case MakeCredential(_, _, _, _, _, _) => OthersKeepKey(d, s, c);
    case GetAssertion(_, _, _, _, _, _, _) => OthersKeepKey(d, s, c);
    case PowerCycle =>
  }

  /** The PIN 1234, padded. */
  function FourDigits(): (padded: octets)
    ensures |padded| == 64
    ensures PinLength(padded) == 4
  {
    var padded: octets := [0x31, 0x32, 0x33, 0x34] + seq(60, _ => 0);
    FourDigitsLength(padded);
    padded
  }

  lemma FourDigitsLength(padded: octets)
    requires |padded| > 4 && padded[0] != 0 && padded[1] != 0 && padded[2] != 0 && padded[3] != 0 && padded[4] == 0
    ensures PinLength(padded) == 4
  {
    assert padded[1..][1..] == padded[2..] && padded[2..][1..] == padded[3..] && padded[3..][1..] == padded[4..];
    assert PinLength(padded[4..]) == 0;
    assert PinLength(padded[3..]) == 1;
    assert PinLength(padded[2..]) == 2;
  }

  const HONEST: Envelope := Envelope(true, 1, true, true)

  function SetFourDigits(): Command {
    SetPin(HONEST, Sealed(64, Some(FourDigits())))
  }

  /** getPinUvAuthToken with the PIN 1234, for configuration. */
  function ConfigToken(d: Device): Command {
    GetToken(HONEST, Sealed(16, Some(d.suite.pinHash(FourDigits()[..4]))), true, 0x20, None)
  }

  lemma SetFourDigitsStep(d: Device, raw: octets, key: octets)
    requires d.Lawful() && |raw| == RAW_SIZE
    ensures Typed(SetFourDigits())
    ensures var (s', o) := SetPinStep(d, Scanned(d, raw, key), SetFourDigits());
      && o.status == Success && s'.minPin == None
      && s'.pin == Some(PinFile(8, 4, d.suite.doubleHash(d.suite.pinHash(FourDigits()[..4]))))
  {
  }

  lemma ConfigTokenStep(d: Device, s: State)
    requires d.Lawful() && s.minPin == None
    requires s.pin == Some(PinFile(8, 4, d.suite.doubleHash(d.suite.pinHash(FourDigits()[..4]))))
    ensures Typed(ConfigToken(d))
    ensures var (s', o) := GetTokenStep(d, s, ConfigToken(d));
      && o.passage == Issued && s'.minPin == None && s'.pin == s.pin
      && s'.token.permissions == 0x20
  {
  }

  lemma RunOne(d: Device, s: State, a: Command)
    requires d.Lawful() && Typed(a) && Sized(s)
    ensures TypedRun([a]) && Run(d, s, [a]) == Step(d, s, a).0
  {
    assert [a][..0] == [];
  }

  lemma RunAnother(d: Device, s: State, cs: seq<Command>, c: Command)
    requires d.Lawful() && TypedRun(cs) && Typed(c) && Sized(s)
    ensures TypedRun(cs + [c]) && Run(d, s, cs + [c]) == Step(d, Run(d, s, cs), c).0
  {
    assert (cs + [c])[..|cs|] == cs;
  }

  /** After setting the PIN 1234 and getting a configuration token with it. */
  lemma ConfigReady(d: Device, raw: octets, key: octets)
    requires d.Lawful() && |raw| == RAW_SIZE
    ensures TypedRun([SetFourDigits(), ConfigToken(d)])
    ensures var s := Run(d, Scanned(d, raw, key), [SetFourDigits(), ConfigToken(d)]);
      s.minPin == None && s.pin.Some? && s.token.permissions == ACFG
  {
    var (a, b, s0) := (SetFourDigits(), ConfigToken(d), Scanned(d, raw, key));
    SetFourDigitsStep(d, raw, key);
    RunOne(d, s0, a);
    ConfigTokenStep(d, Run(d, s0, [a]));
    RunAnother(d, s0, [a], b);
    assert [a] + [b] == [a, b];
  }

  /**
   * Runs from the first scan: set the PIN 1234, get a configuration token with it, and ask for a
   * minimum whose low byte is below 4, under a protocol number whose low byte is 1 or 2. The minimum
   * drops from 4 to that low byte.
   */
  lemma MinPinDropsTo(d: Device, raw: octets, key: octets, protocol: nat, newMin: nat)
    requires d.Lawful() && |raw| == RAW_SIZE
    requires protocol % 256 in {1, 2} && newMin >= 4 && newMin % 256 < 4
    ensures var (cs, c) := ([SetFourDigits(), ConfigToken(d)], SetMinPin(Given(protocol, true), newMin, None));
      && TypedRun(cs) && MinPinLength(Run(d, Scanned(d, raw, key), cs)) == 4
      && TypedRun(cs + [c]) && MinPinLength(Run(d, Scanned(d, raw, key), cs + [c])) == newMin % 256
  {
    ConfigReady(d, raw, key);
    var (cs, c) := ([SetFourDigits(), ConfigToken(d)], SetMinPin(Given(protocol, true), newMin, None));
    RunAnother(d, Scanned(d, raw, key), cs, c);
  }

  /** A request for 256. */
  lemma MinPinDrops(d: Device, raw: octets, key: octets)
    requires d.Lawful() && |raw| == RAW_SIZE
    ensures var cs := [SetFourDigits(), ConfigToken(d)] + [SetMinPin(Given(1, true), 256, None)];
      TypedRun(cs) && MinPinLength(Run(d, Scanned(d, raw, key), cs)) == 0
  {
    MinPinDropsTo(d, raw, key, 1, 256);
  }

  /** The same under protocol number 257. */
  lemma MinPinDropsWide(d: Device, raw: octets, key: octets)
    requires d.Lawful() && |raw| == RAW_SIZE
    ensures var cs := [SetFourDigits(), ConfigToken(d)] + [SetMinPin(Given(257, true), 256, None)];
      TypedRun(cs) && MinPinLength(Run(d, Scanned(d, raw, key), cs)) == 0
  {
    MinPinDropsTo(d, raw, key, 257, 256);
  }

  // ---------- retries ----------

  /** Attempts charged since the last right PIN or setPIN. */
  function Spent(d: Device, s: State, cs: seq<Command>): nat
    requires d.Lawful() && TypedRun(cs) && Sized(s)
  {
    if cs == [] then 0
    else
      var n := |cs| - 1;
      var o := OutcomeOf(d, s, cs, n);
      if o.attempt == Right || (cs[n].SetPin? && o.status == Success) then 0
      else Spent(d, s, cs[..n]) + (if o.attempt == NotTried then 0 else 1)
  }

  /** What one command does to the PIN's retries and to the mismatch count. */
  lemma StepRetries(d: Device, s: State, c: Command)
    requires d.Lawful() && Typed(c) && Sized(s)
    ensures var (s', o) := Step(d, s, c);
      && (s.pin.Some? ==> s'.pin.Some?)
      && (o.attempt == Right || (c.SetPin? && o.status == Success) ==>
            s'.pin.Some? && s'.pin.value.retries == MAX_PIN_RETRIES)
      && (o.attempt in {Wrong, Undecryptable} ==>
            s.pin.Some? && s.pin.value.retries > 0 && s'.pin.Some?
            && s'.pin.value == s.pin.value.(retries := s.pin.value.retries - 1))
      && (o.attempt == NotTried && !(c.SetPin? && o.status == Success) ==> s'.pin == s.pin)
      && (o.attempt == Right || c.PowerCycle? ==> s'.mismatches == 0)
      && (o.attempt != Right && !c.PowerCycle? ==>
            s'.mismatches == if o.attempt == Wrong && s'.pin.value.retries > 0 then Byte(s.mismatches as int + 1)
                             else s.mismatches)
  {
    match c
    case SetPin(_, _) => SetPinShape(d, s, c);
    case ChangePin(_, _, _) => ChangePinRetries(d, s, c);
    case GetToken(_, _, _, _, _) => GetTokenRetries(d, s, c);
    case SetMinPin(_, _, _) => OthersKeepKey(d, s, c);
    case MakeCredential(_, _, _, _, _, _) => OthersKeepKey(d, s, c);
    case GetAssertion(_, _, _, _, _, _, _) => OthersKeepKey(d, s, c);
    case PowerCycle =>
  }

  lemma TryPinRetries(d: Device, s: State, pinHash: Option<octets>)
    requires s.pin.Some? && s.pin.value.retries > 0
    ensures var (s', o) := TryPin(d, s, pinHash);
      && s'.pin == Some(s.pin.value.(retries := s.pin.value.retries - 1))
      && s'.mismatches == if o.attempt == Wrong && s'.pin.value.retries > 0 then Byte(s.mismatches as int + 1)
                          else s.mismatches
  {
  }

  lemma ChangePinRetries(d: Device, s: State, c: Command)
    requires c.ChangePin? && Typed(c) && Sized(s)
    ensures var (s', o) := ChangePinStep(d, s, c);
      && (o.attempt == NotTried ==> s' == s)
      && (o.attempt != NotTried ==> s.pin.Some? && s.pin.value.retries > 0 && s'.pin.Some?)
      && (o.attempt == Right ==> s'.pin.value.retries == MAX_PIN_RETRIES && s'.mismatches == 0)
      && (o.attempt in {Wrong, Undecryptable} ==>
            s'.pin == TryPin(d, s, c.pinHash.plain).0.pin && s'.mismatches == TryPin(d, s, c.pinHash.plain).0.mismatches
            && s'.pin.value == s.pin.value.(retries := s.pin.value.retries - 1)
            && s'.mismatches == if o.attempt == Wrong && s'.pin.value.retries > 0 then Byte(s.mismatches as int + 1)
                                else s.mismatches)
  {
    ChangePinShape(d, s, c);
    if ChangePinStep(d, s, c).1.attempt != NotTried {
      TryPinRetries(d, s, c.pinHash.plain);
    }
  }

  lemma GetTokenRetries(d: Device, s: State, c: Command)
    requires c.GetToken? && Typed(c)
    ensures var (s', o) := GetTokenStep(d, s, c);
      && (o.attempt == NotTried ==> s' == s)
      && (o.attempt != NotTried ==> s.pin.Some? && s.pin.value.retries > 0 && s'.pin.Some?)
      && (o.attempt == Right ==> s'.pin.value.retries == MAX_PIN_RETRIES && s'.mismatches == 0)
      && (o.attempt in {Wrong, Undecryptable} ==>
            && s'.pin.value == s.pin.value.(retries := s.pin.value.retries - 1)
            && s'.mismatches == if o.attempt == Wrong && s'.pin.value.retries > 0 then Byte(s.mismatches as int + 1)
                                else s.mismatches)
  {
    GetTokenShape(d, s, c);
    if GetTokenStep(d, s, c).1.attempt != NotTried {
      TryPinRetries(d, s, c.pinHash.plain);
    }
  }

  /**
   * Over any run the retry byte is 8 minus the attempts charged since the last right PIN or setPIN; it
   * never underflows, and the mismatches since power-up are never more than the retries used up.
   */
  lemma {:induction false} RunRetries(d: Device, cs: seq<Command>, raw: octets, key: octets)
    requires d.Lawful() && TypedRun(cs) && |raw| == RAW_SIZE
    ensures var (s0, s) := (Scanned(d, raw, key), Run(d, Scanned(d, raw, key), cs));
      && (s.pin.None? ==> s.mismatches == 0 && Spent(d, s0, cs) == 0)
      && (s.pin.Some? ==>
            && Spent(d, s0, cs) <= MAX_PIN_RETRIES
            && s.pin.value.retries == MAX_PIN_RETRIES - Spent(d, s0, cs)
            && s.mismatches <= MAX_PIN_RETRIES - s.pin.value.retries)
  {
    if cs != [] {
      var n := |cs| - 1;
      RunRetries(d, cs[..n], raw, key);
      StepRetries(d, Run(d, Scanned(d, raw, key), cs[..n]), cs[n]);
    }
  }

  /** With no retries left, no command tries a PIN, changes the PIN file or issues a token. */
  lemma StepBlocked(d: Device, s: State, c: Command)
    requires d.Lawful() && Typed(c) && Sized(s) && s.pin.Some? && s.pin.value.retries == 0
    ensures var (s', o) := Step(d, s, c);
      s'.pin == s.pin && o.attempt == NotTried && o.passage != Issued
  {
    StepRetries(d, s, c);
    match c
    case SetPin(_, _) => SetPinShape(d, s, c);
    case ChangePin(_, _, _) => ChangePinRetries(d, s, c);
    case GetToken(_, _, _, _, _) =>
      GetTokenShape(d, s, c);
      GetTokenRetries(d, s, c);
    case SetMinPin(_, _, _) => OthersKeepKey(d, s, c);
    case MakeCredential(_, _, _, _, _, _) => OthersKeepKey(d, s, c);
    case GetAssertion(_, _, _, _, _, _, _) => OthersKeepKey(d, s, c);
    case PowerCycle =>
  }

  /** A blocked PIN stays blocked, through power cycles too: every later run leaves it and issues no token. */
  lemma {:induction false} RunBlocked(d: Device, s: State, cs: seq<Command>)
    requires d.Lawful() && TypedRun(cs) && Sized(s) && s.pin.Some? && s.pin.value.retries == 0
    ensures Run(d, s, cs).pin == s.pin
    ensures cs != [] ==> OutcomeOf(d, s, cs, |cs| - 1).passage != Issued
  {
    if cs != [] {
      RunBlocked(d, s, cs[..|cs| - 1]);
      StepBlocked(d, Run(d, s, cs[..|cs| - 1]), cs[|cs| - 1]);
    }
  }
}
