/** The stopping rule of `find_extremum`: the best fitness seen so far and
    the number of rounds since it last strictly improved. The search stops
    once that counter reaches MAX_COUNTS. */
module Stagnation {

  /** Rounds without a strict improvement after which the search stops. */
  const MAX_COUNTS: nat := 25

  datatype Progress = Progress(best: real, counter: nat)

  /** One round: the best of the new generation replaces the best so far
      only when it is strictly smaller; otherwise the counter advances. */
  function Step(p: Progress, roundBest: real): Progress
  {
    if roundBest < p.best then Progress(roundBest, 0) else Progress(p.best, p.counter + 1)
  }

  /** The progress after the rounds whose best fitnesses are `rounds`,
      starting from the fitness `f0` of the first champion. */
  function Track(f0: real, rounds: seq<real>): Progress
    decreases |rounds|
  {
    if rounds == [] then Progress(f0, 0)
    else Step(Track(f0, rounds[..|rounds| - 1]), rounds[|rounds| - 1])
  }

  /** One more round is one more step. */
  lemma TrackAppend(f0: real, rounds: seq<real>, roundBest: real)
    ensures Track(f0, rounds + [roundBest]) == Step(Track(f0, rounds), roundBest)
  {
    assert (rounds + [roundBest])[..|rounds|] == rounds;
  }

  /** One more round: the counter resets exactly on a strict improvement,
      and the best never increases. */
  lemma TrackStep(f0: real, rounds: seq<real>, roundBest: real)
    ensures var p, q := Track(f0, rounds), Track(f0, rounds + [roundBest]);
      && (q.counter == 0 <==> roundBest < p.best)
      && (q.counter != 0 ==> q.counter == p.counter + 1 && q.best == p.best)
      && q.best <= p.best && q.best <= roundBest
  {
    assert (rounds + [roundBest])[..|rounds|] == rounds;
  }

  /** The best so far is the minimum of the first champion and every
      round's best. */
  lemma {:induction false} TrackIsMinimum(f0: real, rounds: seq<real>)
    ensures var b := Track(f0, rounds).best;
      && b <= f0
      && (forall i :: 0 <= i < |rounds| ==> b <= rounds[i])
      && (b == f0 || b in rounds)
  {
    if rounds != [] {
      var init := rounds[..|rounds| - 1];
      TrackIsMinimum(f0, init);
      assert rounds == init + [rounds[|rounds| - 1]];
      TrackStep(f0, init, rounds[|rounds| - 1]);
    }
  }

  /** The best so far never increases from one prefix of the rounds to a
      longer one. */
  lemma {:induction false} TrackNonIncreasing(f0: real, rounds: seq<real>, k: nat)
    requires k <= |rounds|
    ensures Track(f0, rounds).best <= Track(f0, rounds[..k]).best
    decreases |rounds|
  {
    if k < |rounds| {
      var init := rounds[..|rounds| - 1];
      assert rounds[..k] == init[..k];
      TrackNonIncreasing(f0, init, k);
      assert rounds == init + [rounds[|rounds| - 1]];
      TrackStep(f0, init, rounds[|rounds| - 1]);
    } else {
      assert rounds[..k] == rounds;
    }
  }

  /** The counter is the number of rounds since the last strict improvement:
      the best was already reached `counter` rounds ago, and, unless no round
      ever improved, the round just before those produced it, strictly below
      the best before it. */
  lemma {:induction false} TrackCounter(f0: real, rounds: seq<real>)
    ensures CounterMeaning(f0, rounds)
  {
    if rounds == [] {
      assert rounds[..0] == rounds;
    } else {
      var init := rounds[..|rounds| - 1];
      TrackCounter(f0, init);
      assert rounds == init + [rounds[|rounds| - 1]];
      TrackCounterStep(f0, init, rounds[|rounds| - 1]);
    }
  }

  /** What the counter of `Track(f0, rounds)` means, as `TrackCounter`
      states it. */
  predicate CounterMeaning(f0: real, rounds: seq<real>)
  {
    var p := Track(f0, rounds);
    && p.counter <= |rounds|
    && Track(f0, rounds[..|rounds| - p.counter]).best == p.best
    && (p.counter < |rounds| ==>
          var s := |rounds| - p.counter - 1;
          rounds[s] == p.best && p.best < Track(f0, rounds[..s]).best)
    && (p.counter == |rounds| ==> p.best == f0)
  }

  lemma TrackCounterStep(f0: real, init: seq<real>, m: real)
    requires CounterMeaning(f0, init)
    ensures CounterMeaning(f0, init + [m])
  {
    var rounds := init + [m];
    var n := |rounds|;
    assert rounds[..n - 1] == init;
    TrackStep(f0, init, m);
    var p := Track(f0, rounds);
    if p.counter == 0 {
      assert rounds[..n] == rounds;
    } else {
      var c := Track(f0, init).counter;
      assert rounds[..n - p.counter] == init[..(n - 1) - c];
      if c < n - 1 {
        assert rounds[..n - p.counter - 1] == init[..(n - 1) - c - 1];
      }
    }
  }
}
