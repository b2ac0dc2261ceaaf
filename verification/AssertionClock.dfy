/**
 * The 30-second limit between assertions, in real elapsed time: the code compares two readings of a
 * 32-bit millisecond clock, and both the deadline and the clock may wrap.
 */
module AssertionClock {
  import opened Bytes
  import opened SealedCredential
  import opened Assertion

  /** What the clock reads `elapsed` milliseconds after it read `timer`. */
  function Clock(timer: nat, elapsed: nat): nat {
    (timer + elapsed) % UINT32
  }

  /** The next assertion is in time, in terms of the time that has passed; the clock shows it modulo 2^32. */
  predicate InTime(timer: nat, elapsed: nat) {
    var shown := elapsed % UINT32;
    if timer + NEXT_LIMIT < UINT32 then shown <= NEXT_LIMIT || timer + shown >= UINT32
    else shown <= NEXT_LIMIT && timer + shown >= UINT32
  }

  lemma ClockShows(timer: nat, elapsed: nat)
    ensures Clock(timer, elapsed) == (timer + elapsed % UINT32) % UINT32
  {
  }

  lemma InTimeExact(timer: nat, elapsed: nat)
    requires timer < UINT32
    ensures Expired(timer, Clock(timer, elapsed)) <==> !InTime(timer, elapsed)
  {
    ClockShows(timer, elapsed);
  }

  /**
   * The limit is 30 seconds exactly in these cases. Within one period of the clock: the deadline does
   * not wrap and neither has the clock; or the deadline wraps, and the clock has wrapped too or the 30
   * seconds are over. Later on: what the clock shows is a late time, too.
   */
  lemma ExpiryExact(timer: nat, elapsed: nat)
    requires timer < UINT32
    ensures var shown := elapsed % UINT32;
      ((Expired(timer, Clock(timer, elapsed)) <==> elapsed > NEXT_LIMIT)
       <==> (if timer + NEXT_LIMIT < UINT32 then
               timer + shown < UINT32 && (elapsed >= UINT32 ==> shown > NEXT_LIMIT)
             else shown > NEXT_LIMIT || (timer + shown >= UINT32 && elapsed < UINT32)
                  || (timer + shown < UINT32 && elapsed >= UINT32)))
  {
    InTimeExact(timer, elapsed);
  }

  /**
   * A stale session is served once the clock has wrapped past a deadline that did not, until the clock
   * is back where it was, and for 30 seconds more.
   */
  lemma StaleServed(timer: nat, elapsed: nat)
    requires timer < UINT32 && timer + NEXT_LIMIT < UINT32 && elapsed > NEXT_LIMIT
    requires timer + elapsed % UINT32 >= UINT32 || elapsed % UINT32 <= NEXT_LIMIT
    ensures !Expired(timer, Clock(timer, elapsed))
  {
    InTimeExact(timer, elapsed);
  }

  /** 40 seconds before the clock wraps, and 40.001 seconds later. */
  lemma StaleServedExample()
    ensures Clock(UINT32 - 40000, 40001) == 1 && 40001 > NEXT_LIMIT && !Expired(UINT32 - 40000, 1)
  {
  }

  /** 10 seconds before the clock wraps, and a millisecond later. */
  lemma FreshRefusedExample()
    ensures Clock(UINT32 - 10000, 1) == UINT32 - 9999 && Expired(UINT32 - 10000, UINT32 - 9999)
  {
  }

  // ---------- sessions in real time ----------

  /** The clock readings of calls with these times between them. */
  function Times(timer: nat, gaps: seq<nat>): (times: seq<nat>)
    ensures |times| == |gaps| && forall i :: 0 <= i < |times| ==> times[i] < UINT32
    decreases |gaps|
  {
    if gaps == [] then [] else [Clock(timer, gaps[0])] + Times(Clock(timer, gaps[0]), gaps[1..])
  }

  predicate AllInTime(timer: nat, gaps: seq<nat>)
    decreases |gaps|
  {
    gaps == [] || (InTime(timer, gaps[0]) && AllInTime(Clock(timer, gaps[0]), gaps[1..]))
  }

  /** The code's own test passes at every call exactly when every call is in time. */
  lemma {:induction false} TimelyExact(timer: nat, gaps: seq<nat>)
    requires timer < UINT32
    ensures Timely(timer, Times(timer, gaps)) <==> AllInTime(timer, gaps)
    decreases |gaps|
  {
    if gaps != [] {
      InTimeExact(timer, gaps[0]);
      TimelyExact(Clock(timer, gaps[0]), gaps[1..]);
      assert Times(timer, gaps)[1..] == Times(Clock(timer, gaps[0]), gaps[1..]);
    }
  }

  function Sum(gaps: seq<nat>): nat
    decreases |gaps|
  {
    if gaps == [] then 0 else gaps[0] + Sum(gaps[1..])
  }

  lemma FirstAndRest(gaps: seq<nat>)
    requires gaps != []
    ensures (forall i :: 0 <= i < |gaps| ==> gaps[i] <= NEXT_LIMIT)
      <==> (gaps[0] <= NEXT_LIMIT && forall i :: 0 <= i < |gaps[1..]| ==> gaps[1..][i] <= NEXT_LIMIT)
  {
    assert forall i :: 0 < i < |gaps| ==> gaps[i] == gaps[1..][i - 1];
  }

  /** While the clock stays 30 seconds away from wrapping, in time means within 30 seconds. */
  lemma {:induction false} NoWrapInTime(timer: nat, gaps: seq<nat>)
    requires timer + Sum(gaps) + NEXT_LIMIT < UINT32
    ensures AllInTime(timer, gaps) <==> forall i :: 0 <= i < |gaps| ==> gaps[i] <= NEXT_LIMIT
    decreases |gaps|
  {
    if gaps != [] {
      var clock := timer + gaps[0];
      assert Clock(timer, gaps[0]) == clock && (InTime(timer, gaps[0]) <==> gaps[0] <= NEXT_LIMIT);
      NoWrapInTime(clock, gaps[1..]);
      FirstAndRest(gaps);
    }
  }

  /**
   * In real time: getAssertion and the getNextAssertion calls that follow it after the given gaps
   * hand out every eligible credential once, the newest first, if and as long as every gap is in time.
   */
  lemma AssertionsInRealTime(s: Session, candidates: seq<Credential>, verified: bool, resident: bool,
                             now: nat, gaps: seq<nat>)
    requires |candidates| <= MAX_LIST && now < UINT32
    requires AllInTime(now, gaps) && |EligibleOf(candidates, verified, resident)| > 1
    ensures var eligible := EligibleOf(candidates, verified, resident);
      var (reply, s') := Assert(s, Ok(candidates), verified, resident, true, None, None, now);
      && SoundSession(s') && reply == Asserted(Ranked(eligible)[0], Some(|eligible|))
      && multiset(Ranked(eligible)) == multiset(eligible) && Descending(Ranked(eligible))
      && (forall i :: 0 <= i < |gaps| ==> Replies(s', Times(now, gaps))[i] == Handed(Ranked(eligible), i + 1))
  {
    TimelyExact(now, gaps);
    AssertionsInOrder(s, candidates, verified, resident, now, Times(now, gaps));
  }

  /** A call that fails while its response is made ends the session, too: every later one is refused. */
  lemma FailureEndsSession(s: Session, failure: Status, now: nat, times: seq<nat>, i: nat)
    requires SoundSession(s) && now < UINT32 && (forall k :: 0 <= k < |times| ==> times[k] < UINT32) && i < |times|
    ensures var (reply, s') := Next(s, Some(failure), now);
      && SoundSession(s')
      && reply == Refused(if s.counter >= s.number || Expired(s.timer, now) then NotAllowed else failure)
      && Replies(s', times)[i] == Refused(NotAllowed)
  {
    ClearedRefuses(Next(s, Some(failure), now).1, times, i);
  }

  /** A call that is not in time is refused, and so is every later one. */
  lemma LateEndsSession(s: Session, gap: nat, later: seq<nat>, i: nat)
    requires SoundSession(s) && !InTime(s.timer, gap) && i <= |later|
    ensures Replies(s, Times(s.timer, [gap] + later))[i] == Refused(NotAllowed)
  {
    InTimeExact(s.timer, gap);
    var times := Times(s.timer, [gap] + later);
    assert ([gap] + later)[1..] == later;
    if i > 0 {
      ClearedRefuses(CLEARED, times[1..], i - 1);
    }
  }
}
