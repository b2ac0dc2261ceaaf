/**
 * The two counters in every Yubico OTP: a usage counter kept in flash, which goes up when the device
 * starts and when the session counter wraps, and a session counter kept in memory. A validation
 * server accepts an OTP only if the pair is above the last one it saw.
 */
module OtpCounter {
  import opened Bytes

  const LAST: nat := 0x7fff
  const UINT16: nat := 0x1_0000

  /** One slot's counters, and whether the start-up work is done since power-up. */
  datatype Usage = Usage(counter: nat, session: byte, ready: bool)

  /**
   * Power-up; the start-up work (`init_otp`, by whatever path); a status query (`otp_status`), which
   * marks the start-up work as done without doing it; a press of this slot's button.
   */
  datatype Event = PowerUp | Init | Query | Press

  datatype Pair = Pair(usage: nat, session: nat)

  predicate Less(p: Pair, q: Pair) {
    p.usage < q.usage || (p.usage == q.usage && p.session < q.session)
  }

  predicate InRange(u: Usage) {
    u.counter <= LAST
  }

  /** The 16-bit increment. */
  function Next(counter: nat): nat {
    (counter + 1) % UINT16
  }

  function Initialised(u: Usage): Usage {
    if u.ready then u
    else u.(counter := if Next(u.counter) <= LAST then Next(u.counter) else u.counter, ready := true)
  }

  /** The usage counter that an OTP carries: a slot that was never used starts at 1. */
  function Shown(u: Usage): nat {
    if u.counter == 0 then 1 else u.counter
  }

  /** The pair in the OTP, and the counters after it. */
  function Emit(u: Usage): (Pair, Usage) {
    var c := Shown(u);
    var s := Byte(u.session as int + 1);
    var c' := if s == 0 then Next(c) else c;
    (Pair(c, u.session),
     u.(session := s, counter := if (s == 0 && c' <= LAST) || u.counter == 0 then c' else u.counter))
  }

  function Advance(u: Usage, e: Event): Usage {
    match e
    case PowerUp => u.(session := 0, ready := false)
    case Init => Initialised(u)
    case Query => u.(ready := true)
    case Press => Emit(Initialised(u)).1
  }

  function After(u: Usage, es: seq<Event>): Usage
    decreases |es|
  {
    if es == [] then u else After(Advance(u, es[0]), es[1..])
  }

  /** The pairs emitted over a run. */
  function Emitted(u: Usage, es: seq<Event>): seq<Pair>
    decreases |es|
  {
    if es == [] then []
    else
      (if es[0].Press? then [Emit(Initialised(u)).0] else []) + Emitted(Advance(u, es[0]), es[1..])
  }

  /** Every pair above the one before it, the first above `last`. */
  predicate Rising(last: Option<Pair>, ps: seq<Pair>)
    decreases |ps|
  {
    ps == [] || ((last.Some? ==> Less(last.value, ps[0])) && Rising(Some(ps[0]), ps[1..]))
  }

  // ---------- exactly when the pairs rise ----------

  /** Whether an OTP was emitted under the present usage counter, and whether the session restarted under it since. */
  datatype Trail = Trail(used: bool, stalled: bool)

  /** The session counter starts over with no new usage counter: what an OTP shows next was shown already if any was. */
  function Stall(t: Trail): Trail {
    t.(stalled := t.stalled || t.used)
  }

  function FollowInit(u: Usage, t: Trail): Trail {
    if u.ready then t else if u.counter < LAST then Trail(false, false) else Stall(t)
  }

  function Follow(u: Usage, t: Trail, e: Event): Trail {
    match e
    case PowerUp => t
    case Init => FollowInit(u, t)
    case Query => if u.ready then t else Stall(t)
    case Press =>
      var t' := FollowInit(u, t).(used := true);
      if u.session < 255 then t' else if Shown(Initialised(u)) < LAST then Trail(false, false) else Stall(t')
  }

  /** No OTP is emitted after a stall. */
  predicate NeverStale(u: Usage, t: Trail, es: seq<Event>)
    decreases |es|
  {
    || es == []
    || ((es[0].Press? ==> !FollowInit(u, t).stalled)
        && NeverStale(Advance(u, es[0]), Follow(u, t, es[0]), es[1..]))
  }

  /** How the last pair emitted stands to the counters. */
  predicate Tracks(u: Usage, t: Trail, last: Option<Pair>) {
    && InRange(u)
    && (t.stalled ==> t.used)
    && (!u.ready ==> u.session == 0)
    && (t.used ==> last.Some? && last.value.usage == u.counter && u.counter > 0)
    && (t.used && u.ready ==> (t.stalled <==> last.value.session >= u.session as nat))
    && (!t.used && last.Some? ==> last.value.usage < u.counter)
  }

  lemma InitTracks(u: Usage, t: Trail, last: Option<Pair>)
    requires Tracks(u, t, last)
    ensures Tracks(Initialised(u), FollowInit(u, t), last)
  {
  }

  lemma PressTracks(u: Usage, t: Trail, last: Option<Pair>)
    requires u.ready && Tracks(u, t, last)
    ensures t.stalled <==> last.Some? && !Less(last.value, Emit(u).0)
    ensures !t.stalled ==> Tracks(Emit(u).1, Follow(u, t, Press), Some(Emit(u).0))
  {
  }

  /** The pairs of a run rise if and only if no OTP is emitted after a stall. */
  lemma {:induction false} RisingExactly(u: Usage, t: Trail, last: Option<Pair>, es: seq<Event>)
    requires Tracks(u, t, last)
    ensures Rising(last, Emitted(u, es)) <==> NeverStale(u, t, es)
    decreases |es|
  {
    if es != [] {
      var (u', rest) := (Advance(u, es[0]), es[1..]);
      InitTracks(u, t, last);
      if es[0].Press? {
        var (u1, t1) := (Initialised(u), FollowInit(u, t));
        PressTracks(u1, t1, last);
        assert Follow(u, t, Press) == Follow(u1, t1, Press);
        var p := Emit(u1).0;
        assert Emitted(u, es) == [p] + Emitted(u', rest);
        if !t1.stalled {
          RisingExactly(u', Follow(u, t, Press), Some(p), rest);
        }
      } else {
        assert Emitted(u, es) == Emitted(u', rest);
        RisingExactly(u', Follow(u, t, es[0]), last, rest);
      }
    }
  }

  /** A slot as it is configured: the usage counter is zero, and no OTP has been emitted. */
  lemma ConfiguredRising(session: byte, es: seq<Event>)
    ensures var u := Usage(0, session, true);
      Rising(None, Emitted(u, es)) <==> NeverStale(u, Trail(false, false), es)
  {
    RisingExactly(Usage(0, session, true), Trail(false, false), None, es);
  }

  // ---------- the ordinary case ----------

  /** No status query comes between power-up and the start-up work. */
  predicate Orderly(u: Usage, es: seq<Event>)
    decreases |es|
  {
    es == [] || ((es[0].Query? ==> u.ready) && Orderly(Advance(u, es[0]), es[1..]))
  }

  lemma {:induction false} CounterGrows(u: Usage, es: seq<Event>)
    requires InRange(u)
    ensures u.counter <= After(u, es).counter <= LAST
    decreases |es|
  {
    if es != [] {
      CounterGrows(Advance(u, es[0]), es[1..]);
    }
  }

  lemma {:induction false} OrderlyNeverStale(u: Usage, t: Trail, es: seq<Event>)
    requires InRange(u) && !t.stalled && Orderly(u, es) && After(u, es).counter < LAST
    ensures NeverStale(u, t, es)
    decreases |es|
  {
    if es != [] {
      var u' := Advance(u, es[0]);
      CounterGrows(u', es[1..]);
      CounterGrows(u, []);
      assert u'.counter < LAST;
      OrderlyNeverStale(u', Follow(u, t, es[0]), es[1..]);
    }
  }

  /**
   * Over all presses and restarts of a configured slot, with the start-up work done first after every
   * power-up and the usage counter not yet at its last value, the emitted pairs strictly rise.
   */
  lemma OrderlyRising(session: byte, es: seq<Event>)
    requires var u := Usage(0, session, true); Orderly(u, es) && After(u, es).counter < LAST
    ensures Rising(None, Emitted(Usage(0, session, true), es))
  {
    OrderlyNeverStale(Usage(0, session, true), Trail(false, false), es);
    ConfiguredRising(session, es);
  }

  /** The pair as one number, which the session counter is the low byte of. */
  function Count(u: Usage): nat {
    256 * Shown(u) + u.session as nat
  }

  lemma PressCounts(u: Usage)
    requires u.ready && InRange(u)
    ensures Emit(u).0 == Pair(Count(u) / 256, Count(u) % 256)
    ensures Count(u) + 1 < 256 * (LAST + 1) ==>
      Count(Emit(u).1) == Count(u) + 1 && Emit(u).1.ready && InRange(Emit(u).1)
  {
  }

  /** Presses without a restart emit consecutive pairs, up to the last one there is. */
  lemma {:induction false} PressesCount(u: Usage, n: nat, j: nat)
    requires u.ready && InRange(u) && j < n && Count(u) + j < 256 * 0x8000
    ensures |Emitted(u, Fill(Press, n))| == n
    ensures Emitted(u, Fill(Press, n))[j] == Pair((Count(u) + j) / 256, (Count(u) + j) % 256)
    decreases n
  {
    var (u', rest) := (Emit(u).1, Fill(Press, n - 1));
    PressCounts(u);
    assert Fill(Press, n)[1..] == rest;
    assert Emitted(u, Fill(Press, n)) == [Emit(u).0] + Emitted(u', rest);
    PressesEmit(u', n - 1);
    if j > 0 {
      PressesCount(u', n - 1, j - 1);
    }
  }

  lemma {:induction false} PressesEmit(u: Usage, n: nat)
    ensures |Emitted(u, Fill(Press, n))| == n
    decreases n
  {
    if n > 0 {
      assert Fill(Press, n)[1..] == Fill(Press, n - 1);
      PressesEmit(Advance(u, Press), n - 1);
    }
  }

  /** After a restart the next usage counter is used from session 0 on, but for the last value, which is used again. */
  lemma RestartCounts(u: Usage)
    requires InRange(u)
    ensures var u' := Advance(Advance(u, PowerUp), Init);
      && u' == Usage(if u.counter < 0x7fff then u.counter + 1 else 0x7fff, 0, true)
      && Emitted(u, [PowerUp, Press]) == [Pair(u'.counter, 0)]
  {
    var off := Advance(u, PowerUp);
    assert [PowerUp, Press][1..] == [Press];
    assert Emitted(off, [Press]) == [Emit(Initialised(off)).0];
  }

  /** A status query before the start-up work makes an OTP repeat an earlier pair. */
  lemma QueryFirstRepeats()
    ensures var es := [Press, PowerUp, Query, Press];
      Emitted(Usage(0, 0, true), es) == [Pair(1, 0), Pair(1, 0)]
  {
    var u1 := Advance(Usage(0, 0, true), Press);
    var u2 := Advance(u1, PowerUp);
    var u3 := Advance(u2, Query);
    assert Emitted(u3, [Press]) == [Pair(1, 0)];
    assert [Query, Press][1..] == [Press] && [PowerUp, Query, Press][1..] == [Query, Press];
    assert Emitted(u2, [Query, Press]) == Emitted(u3, [Press]);
    assert Emitted(u1, [PowerUp, Query, Press]) == Emitted(u2, [Query, Press]);
    assert [Press, PowerUp, Query, Press][1..] == [PowerUp, Query, Press];
  }

  /** At the last value of the usage counter a restart makes an OTP repeat an earlier pair. */
  lemma LastValueRepeats()
    ensures var es := [Press, PowerUp, Press];
      Emitted(Usage(LAST, 0, true), es) == [Pair(LAST, 0), Pair(LAST, 0)]
  {
    var u1 := Advance(Usage(LAST, 0, true), Press);
    var u2 := Advance(u1, PowerUp);
    assert Emitted(u2, [Press]) == [Pair(LAST, 0)];
    assert [PowerUp, Press][1..] == [Press];
    assert Emitted(u1, [PowerUp, Press]) == Emitted(u2, [Press]);
    assert [Press, PowerUp, Press][1..] == [PowerUp, Press];
  }

  // ---------- the two slots ----------

  /** What is configured in a slot; only a Yubico OTP slot has these counters. */
  datatype Slot = Free | OtherKind(config: bytes) | Yubico(config: bytes, counter: nat)

  class Button {
    const slots: array<Slot>
    const sessions: array<byte>
    var scanned: bool

    ghost predicate Valid()
      reads this, slots
    {
      && slots.Length == 2 && sessions.Length == 2
      && forall i :: 0 <= i < 2 && slots[i].Yubico? ==> slots[i].counter < UINT16
    }

    ghost function Of(i: nat): Usage
      requires Valid() && i < 2 && slots[i].Yubico?
      reads this, slots, sessions
    {
      Usage(slots[i].counter, sessions[i], scanned)
    }

    /** Slot i kept its configuration, and its counters went through e. */
    twostate predicate Went(i: nat, e: Event)
      requires old(Valid()) && Valid() && i < 2
      reads this, slots, sessions
    {
      if old(slots[i]).Yubico? then
        && slots[i].Yubico? && slots[i].config == old(slots[i]).config
        && Of(i) == Advance(old(Of(i)), e)
      else slots[i] == old(slots[i])
    }

    constructor (first: Slot, second: Slot)
      requires (first.Yubico? ==> first.counter < UINT16) && (second.Yubico? ==> second.counter < UINT16)
      ensures Valid() && slots[..] == [first, second] && sessions[..] == [0, 0] && !scanned
    {
      slots := new Slot[2](i => if i == 0 then first else second);
      sessions := new byte[2](_ => 0);
      scanned := false;
    }

    /** `init_otp`. */
    method InitOtp()
      requires Valid()
      modifies this, slots
      ensures Valid() && Went(0, Init) && Went(1, Init) && scanned
      ensures sessions[..] == old(sessions[..])
    {
      if !scanned {
        for i := 0 to 2
          invariant forall k :: i <= k < 2 ==> slots[k] == old(slots[k])
          invariant forall k :: 0 <= k < i ==> slots[k] == Started(old(slots[k]))
        {
          if slots[i].Yubico? {
            var counter := (slots[i].counter + 1) % UINT16;
            if counter <= 0x7fff {
              slots[i] := slots[i].(counter := counter);
            }
          }
        }
        scanned := true;
      }
    }

    /** `otp_status`, as far as it concerns the counters. */
    method Status()
      requires Valid()
      modifies this
      ensures Valid() && Went(0, Query) && Went(1, Query)
    {
      if !scanned {
        scanned := true;
      }
    }

    /** Flash is kept, memory is not. */
    method Restart()
      requires Valid()
      modifies this, sessions
      ensures Valid() && Went(0, PowerUp) && Went(1, PowerUp)
    {
      sessions[0] := 0;
      sessions[1] := 0;
      scanned := false;
    }

    /** `otp_button_pressed`, where it emits a Yubico OTP; to the other slot a press is start-up work only. */
    method Pressed(i: nat) returns (p: Option<Pair>)
      requires Valid() && i < 2
      modifies this, slots, sessions
      ensures Valid() && Went(i, Press) && Went(1 - i, Init)
      ensures p == if old(slots[i]).Yubico? then Some(Emit(Initialised(old(Of(i)))).0) else None
    {
      InitOtp();
      if !slots[i].Yubico? {
        return None;
      }
      var counter, update := slots[i].counter, false;
      if counter == 0 {
        update, counter := true, 1;
      }
      p := Some(Pair(counter, sessions[i]));
      sessions[i] := Byte(sessions[i] as int + 1);
      if sessions[i] == 0 {
        counter := (counter + 1) % UINT16;
        if counter <= 0x7fff {
          update := true;
        }
      }
      if update {
        slots[i] := slots[i].(counter := counter);
      }
    }
  }

  function Started(s: Slot): Slot {
    if s.Yubico? then s.(counter := Initialised(Usage(s.counter, 0, false)).counter) else s
  }
}
