/** Python's `random` module as the genetic algorithm uses it. The generator
    is an arbitrary stream of naturals together with how many of them have
    been consumed; each call consumes the next one and hands back the
    advanced generator, so every property proved below holds for every
    sequence of draws. */
module Randomness {

  /** 2 ** 53: `random.random()` yields multiples of 2 ** -53 in [0, 1). */
  const FLOAT_STEPS: nat := 0x20_0000_0000_0000

  /** The value `random.randint(lo, hi)` makes of the draw `d`. */
  function Between(d: nat, lo: int, hi: int): (r: int)
    requires lo <= hi
    ensures lo <= r <= hi
  {
    lo + d % (hi - lo + 1)
  }

  /** The index `random.choice` takes into a sequence of length `n` for the
      draw `d`. */
  function Pick(d: nat, n: nat): (i: nat)
    requires n > 0
    ensures i < n
  {
    d % n
  }

  /** The value `random.random()` makes of the draw `d`. */
  function Fraction(d: nat): (x: real)
    ensures 0.0 <= x < 1.0
  {
    (d % FLOAT_STEPS) as real / FLOAT_STEPS as real
  }

  /** The generator: the stream of draws and the number consumed so far. */
  datatype Rng = Rng(stream: nat -> nat, drawn: nat)
  {
    /** The `k`-th draw of the stream. */
    function At(k: nat): nat
    {
      stream(k)
    }

    /** `random.randint(lo, hi)`: a value in [lo, hi]; Python raises for an
        empty range, which the callers here never ask for. */
    method RandInt(lo: int, hi: int) returns (r: int, next: Rng)
      requires lo <= hi
      ensures next.stream == stream && next.drawn == drawn + 1
      ensures lo <= r <= hi && r == Between(At(drawn), lo, hi)
    {
      r := lo + stream(drawn) % (hi - lo + 1);
      next := Rng(stream, drawn + 1);
    }

    /** `random.random()`: a value in [0, 1). */
    method Random() returns (x: real, next: Rng)
      ensures next.stream == stream && next.drawn == drawn + 1
      ensures 0.0 <= x < 1.0 && x == Fraction(At(drawn))
    {
      x := (stream(drawn) % FLOAT_STEPS) as real / FLOAT_STEPS as real;
      next := Rng(stream, drawn + 1);
    }

    /** `random.choice(s)`: one element of a non-empty sequence. */
    method Choice<T>(s: seq<T>) returns (x: T, next: Rng)
      requires s != []
      ensures next.stream == stream && next.drawn == drawn + 1
      ensures x in s && x == s[Pick(At(drawn), |s|)]
    {
      x := s[stream(drawn) % |s|];
      next := Rng(stream, drawn + 1);
    }
  }
}
