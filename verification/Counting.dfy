/** Runs of a step function, what they put out, and the induction that numbers the outputs. */
module Counting {
  import opened Bytes

  function Runs<S, C, O>(step: (S, C) -> (O, S), s: S, cs: seq<C>): S
    decreases |cs|
  {
    if cs == [] then s else Runs(step, step(s, cs[0]).1, cs[1..])
  }

  /** The outputs that `pick` finds in the outcomes of a run. */
  function Outputs<S, C, O, R>(step: (S, C) -> (O, S), pick: (C, O) -> Option<R>, s: S, cs: seq<C>): seq<R>
    decreases |cs|
  {
    if cs == [] then []
    else
      var (o, s') := step(s, cs[0]);
      (if pick(cs[0], o).Some? then [pick(cs[0], o).value] else []) + Outputs(step, pick, s', cs[1..])
  }

  /** From place k, the step on c puts out a good number k and moves on to k + 1, or puts out nothing and stays. */
  predicate Moves<S, C, O, R>(step: (S, C) -> (O, S), pick: (C, O) -> Option<R>,
                              at: (S, nat) -> bool, good: (nat, R) -> bool, s: S, c: C, k: nat)
  {
    var (o, s') := step(s, c);
    if pick(c, o).Some? then good(k, pick(c, o).value) && at(s', k + 1) else at(s', k)
  }

  ghost predicate CountsOn<S(!new), C(!new), O, R>(step: (S, C) -> (O, S), pick: (C, O) -> Option<R>,
                                                   ok: C -> bool, at: (S, nat) -> bool, good: (nat, R) -> bool)
  {
    forall s, c, k: nat {:trigger Moves(step, pick, at, good, s, c, k)} ::
      at(s, k) && ok(c) ==> Moves(step, pick, at, good, s, c, k)
  }

  /** The outputs are good, numbered from k. */
  predicate AllGood<R>(good: (nat, R) -> bool, k: nat, rs: seq<R>) {
    forall j :: 0 <= j < |rs| ==> good(k + j, rs[j])
  }

  /** Then the outputs of a run are numbered from where it starts. */
  lemma {:induction false} OutputsInOrder<S(!new), C(!new), O, R>(
      step: (S, C) -> (O, S), pick: (C, O) -> Option<R>, ok: C -> bool,
      at: (S, nat) -> bool, good: (nat, R) -> bool, s: S, cs: seq<C>, k: nat)
    requires CountsOn(step, pick, ok, at, good) && at(s, k)
    requires forall i :: 0 <= i < |cs| ==> ok(cs[i])
    ensures var rs := Outputs(step, pick, s, cs);
      && AllGood(good, k, rs)
      && at(Runs(step, s, cs), k + |rs|)
    decreases |cs|
  {
    if cs != [] {
      var (o, s') := step(s, cs[0]);
      assert Moves(step, pick, at, good, s, cs[0], k);
      if pick(cs[0], o).Some? {
        OutputsInOrder(step, pick, ok, at, good, s', cs[1..], k + 1);
        var rest := Outputs(step, pick, s', cs[1..]);
        forall j | 0 <= j < 1 + |rest|
          ensures good(k + j, ([pick(cs[0], o).value] + rest)[j])
        {
          if j > 0 {
            assert good(k + 1 + (j - 1), rest[j - 1]);
          }
        }
      } else {
        OutputsInOrder(step, pick, ok, at, good, s', cs[1..], k);
      }
    }
  }

  /** What every step keeps, a run keeps. */
  lemma {:induction false} RunsKeep<S(!new), C(!new), O>(step: (S, C) -> (O, S), ok: C -> bool, inv: S -> bool,
                                                         s: S, cs: seq<C>)
    requires forall s, c :: inv(s) && ok(c) ==> inv(step(s, c).1)
    requires inv(s) && forall i :: 0 <= i < |cs| ==> ok(cs[i])
    ensures inv(Runs(step, s, cs))
    decreases |cs|
  {
    if cs != [] {
      assert ok(cs[0]);
      RunsKeep(step, ok, inv, step(s, cs[0]).1, cs[1..]);
    }
  }
}
