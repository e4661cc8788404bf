/** A gene: a 16-bit unsigned code with a range-checked setter, a bit splice
    with another gene, cloning, and a fixed-width binary rendering. */
module Genes {
  import opened Arith
  import opened Wrappers

  const BIT_LEN: nat := 16
  const MIN_VALUE: int := 0
  /** 2 ** BIT_LEN - 1 */
  const MAX_VALUE: int := 65535

  lemma MaxValueIs()
    ensures Pow2(BIT_LEN) == MAX_VALUE + 1 == 65536
  {
    assert Pow2(4) == 16;
    assert Pow2(8) == 256 by { Pow2Add(4, 4); }
    Pow2Add(8, 8);
  }

  /** The values the checked setter accepts. */
  predicate InRange(n: int)
  {
    MIN_VALUE <= n <= MAX_VALUE
  }

  /** A gene code: the setter raises ValueError outside [MIN_VALUE, MAX_VALUE],
      so a gene never holds anything else. */
  type Code = n: int | 0 <= n <= 65535

  predicate AllInRange(s: seq<int>)
  {
    forall i :: 0 <= i < |s| ==> InRange(s[i])
  }

  /** The splice law of `combine`: the top `bitPos` bits of `a` followed by
      the low `BIT_LEN - bitPos` bits of `b`; any other `bitPos` leaves `a`. */
  function Spliced(a: int, b: int, bitPos: int): int
  {
    if 0 <= bitPos < BIT_LEN then Graft(a, b, BIT_LEN - bitPos) else a
  }

  /** `a` with its low `k` bits replaced by those of `b`. */
  function Graft(a: int, b: int, k: nat): int
    decreases k
  {
    if k == 0 then a else 2 * Graft(a / 2, b / 2, k - 1) + b % 2
  }

  /** Grafting keeps the quotient of `a` by 2^k and takes the remainder of
      `b`. */
  lemma {:induction false} GraftIs(a: nat, b: nat, k: nat)
    ensures Graft(a, b, k) == a - a % Pow2(k) + b % Pow2(k)
  {
    if k > 0 {
      GraftIs(a / 2, b / 2, k - 1);
      var h: int := Pow2(k - 1);
      ModSplit(a, h);
      ModSplit(b, h);
    }
  }

  function Digit(bit: bool): char
  {
    if bit then '1' else '0'
  }

  predicate IsBinary(s: string)
  {
    forall i :: 0 <= i < |s| ==> s[i] == '0' || s[i] == '1'
  }

  /** The low `n` bits of `x`, most significant first. */
  function Digits(x: nat, n: nat): (s: string)
    ensures |s| == n && IsBinary(s)
  {
    if n == 0 then [] else Digits(x / 2, n - 1) + [Digit(x % 2 == 1)]
  }

  /** What `str(gene)` returns for a code. */
  function Binary(x: nat): (s: string)
    ensures |s| == BIT_LEN && IsBinary(s)
  {
    Digits(x, BIT_LEN)
  }

  /** Reading a string of binary digits, most significant first. */
  function FromDigits(s: string): nat
  {
    if s == [] then 0 else 2 * FromDigits(s[..|s| - 1]) + (if s[|s| - 1] == '1' then 1 else 0)
  }

  lemma {:induction false} FromDigitsOfDigits(x: nat, n: nat)
    ensures FromDigits(Digits(x, n)) == LowBits(x, n)
  {
    if n > 0 {
      var s := Digits(x, n);
      assert s[..n - 1] == Digits(x / 2, n - 1);
      FromDigitsOfDigits(x / 2, n - 1);
    }
  }

  lemma {:induction false} DigitsOfFromDigits(s: string)
    requires IsBinary(s)
    ensures FromDigits(s) < Pow2(|s|)
    ensures Digits(FromDigits(s), |s|) == s
  {
    if s != [] {
      var p := s[..|s| - 1];
      var v := FromDigits(s);
      DigitsOfFromDigits(p);
      assert v / 2 == FromDigits(p) && v % 2 == (if s[|s| - 1] == '1' then 1 else 0);
      assert s == p + [s[|s| - 1]];
    }
  }

  /** An in-range code is its own low 16 bits. */
  lemma LowBitsOfCode(x: int)
    requires InRange(x)
    ensures LowBits(x, BIT_LEN) == x && Shr(x, BIT_LEN) == 0
  {
    ShrLowBits(x, BIT_LEN);
    MaxValueIs();
  }

  /** `str` round-trips: the rendering of an in-range code reads back as the
      code, and every 16-digit binary string is the rendering of its value. */
  lemma BinaryRoundTrip(x: int, s: string)
    requires InRange(x)
    requires |s| == BIT_LEN && IsBinary(s)
    ensures FromDigits(Binary(x)) == x
    ensures InRange(FromDigits(s)) && Binary(FromDigits(s)) == s
  {
    FromDigitsOfDigits(x, BIT_LEN);
    LowBitsOfCode(x);
    DigitsOfFromDigits(s);
    MaxValueIs();
  }

  /** The rendering of `x` is the rendering of its high part followed by the
      rendering of its low `k` bits. */
  lemma {:induction false} DigitsSplit(x: nat, n: nat, k: nat)
    requires k <= n
    ensures Digits(x, n) == Digits(Shr(x, k), n - k) + Digits(LowBits(x, k), k)
  {
    if k > 0 {
      DigitsSplit(x / 2, n - 1, k - 1);
      var high, low, last := Digits(Shr(x, k), n - k), Digits(LowBits(x / 2, k - 1), k - 1), [Digit(x % 2 == 1)];
      assert Digits(LowBits(x, k), k) == low + last;
      calc {
        Digits(x, n);
        Digits(x / 2, n - 1) + last;
        (high + low) + last;
        high + (low + last);
      }
    }
  }

  /** The splice keeps the high part of `a` and the low part of `b`, at the
      level of numbers. */
  lemma SplicedParts(a: int, b: int, p: nat)
    requires InRange(a) && InRange(b) && p < BIT_LEN
    ensures var r, low := Spliced(a, b, p), Pow2(BIT_LEN - p);
      InRange(r) && r / low == a / low && r % low == b % low
  {
    Pow2Add(BIT_LEN - p, p);
    MaxValueIs();
    GraftIs(a, b, BIT_LEN - p);
    SpliceArith(a, b, Pow2(BIT_LEN - p), Pow2(p));
  }

  /** Two numbers that agree with `a` above bit `k` and with `b` below it
      render as `a`'s first `n - k` digits followed by `b`'s last `k`. */
  lemma DigitsOfParts(a: nat, b: nat, r: nat, n: nat, k: nat)
    requires k <= n
    requires Shr(r, k) == Shr(a, k) && LowBits(r, k) == LowBits(b, k)
    ensures Digits(r, n) == Digits(a, n)[..n - k] + Digits(b, n)[n - k..]
  {
    DigitsSplit(a, n, k);
    DigitsSplit(b, n, k);
    DigitsSplit(r, n, k);
  }

  /** The splice law of `Gene.combine`, bit by bit: for 0 <= p < 16 the
      result renders as the first `p` digits of `a` followed by the last
      `16 - p` digits of `b`, and it stays a valid code. */
  lemma SplicedBits(a: int, b: int, p: nat)
    requires InRange(a) && InRange(b) && p < BIT_LEN
    ensures InRange(Spliced(a, b, p))
    ensures Binary(Spliced(a, b, p)) == Binary(a)[..p] + Binary(b)[p..]
  {
    var r, k := Spliced(a, b, p), BIT_LEN - p;
    SplicedParts(a, b, p);
    ShrLowBits(r, k);
    ShrLowBits(a, k);
    ShrLowBits(b, k);
    DigitsOfParts(a, b, r, BIT_LEN, k);
  }

  lemma WholeSplice(a: int, b: int, r: int)
    requires InRange(a) && InRange(b) && InRange(r)
    requires r / 65536 == a / 65536 && r % 65536 == b % 65536
    ensures r == b
  {
    assert r == 65536 * (r / 65536) + r % 65536;
  }

  /** Position 0 copies the whole of `b`; the result is a valid code for
      every position, and positions outside [0, 16) leave `a`. */
  lemma SplicedEnds(a: int, b: int, p: int)
    requires InRange(a) && InRange(b)
    ensures InRange(Spliced(a, b, p))
    ensures p == 0 ==> Spliced(a, b, p) == b
    ensures !(0 <= p < BIT_LEN) ==> Spliced(a, b, p) == a
  {
    if 0 <= p < BIT_LEN {
      SplicedParts(a, b, p);
    }
    if p == 0 {
      MaxValueIs();
      WholeSplice(a, b, Spliced(a, b, p));
    }
  }

  /** The masks of `Gene.combine` compute the splice. */
  lemma MasksSplice(a: int, b: int, p: nat)
    requires InRange(a) && InRange(b) && p < BIT_LEN
    ensures Pow2(BIT_LEN - p) - 1 <= MAX_VALUE
    ensures var otherMask := Pow2(BIT_LEN - p) - 1;
      And(a, MAX_VALUE - otherMask) + And(b, otherMask) == Spliced(a, b, p)
  {
    var k := BIT_LEN - p;
    MaxValueIs();
    GraftIs(a, b, k);
    AndLowMask(b, k);
    AndHighMask(a, BIT_LEN, k);
    MasksArith(a, b, Pow2(k), Pow2(BIT_LEN), And(a, Pow2(BIT_LEN) - Pow2(k)), And(b, Pow2(k) - 1));
  }

  lemma MasksArith(a: int, b: int, low: int, full: int, high: int, lowPart: int)
    requires InRange(a) && full == MAX_VALUE + 1 && 0 < low <= full
    requires high == a % full - a % low && lowPart == b % low
    ensures high + lowPart == a - a % low + b % low
  {
    assert a % full == a;
  }

  /** One round of `str`: below place value 2^m, `rest` holds the low m+1
      bits; its quotient by 2^m is bit m, and the digit extends the rendering
      of the bits above it. */
  lemma PeelStep(code: nat, m: nat, i: nat, rest: nat)
    requires rest == LowBits(code, m + 1)
    ensures var bit := rest / Pow2(m);
      && (bit == 0 || bit == 1)
      && rest - bit * Pow2(m) == LowBits(code, m)
      && Digits(Shr(code, m), i + 1) == Digits(Shr(code, m + 1), i) + [Digit(bit == 1)]
    ensures rest / Pow2(m) == 0 ==> rest == LowBits(code, m)
    ensures rest / Pow2(m) != 0 ==> rest - Pow2(m) == LowBits(code, m)
  {
    LowBitsTop(code, m);
    LowBitsBound(code, m);
    ShrLast(code, m);
    var bit := Shr(code, m) % 2;
    DivModUnique(rest, Pow2(m), bit, LowBits(code, m));
  }

  /** A gene object; `code` is kept in range by the checked setter. */
  class Gene {
    var code: Code

    constructor (number: int)
      requires InRange(number)
      ensures code == number
    {
      code := number;
    }

    /** `Gene(number)`: a gene when `number` is in range, the ValueError
        otherwise. */
    static method Create(number: int) returns (r: Option<Gene>)
      ensures r.Some? <==> InRange(number)
      ensures r.Some? ==> fresh(r.value) && r.value.code == number
    {
      if number < MIN_VALUE || number > MAX_VALUE {
        r := None;
      } else {
        var g := new Gene(number);
        r := Some(g);
      }
    }

    /** The checked setter: `ok` is false exactly when the ValueError is
        raised, and then the code is left as it was. */
    method SetCode(number: int) returns (ok: bool)
      modifies this
      ensures ok <==> InRange(number)
      ensures code == if ok then number else old(code)
    {
      if number < MIN_VALUE || number > MAX_VALUE {
        ok := false;
      } else {
        code := number;
        ok := true;
      }
    }

    /** Splices in place with masks; the setter never rejects the result. */
    method Combine(other: Gene, bitPos: int)
      modifies this
      ensures code == Spliced(old(code), old(other.code), bitPos)
    {
      if 0 <= bitPos < BIT_LEN {
        MasksSplice(code, other.code, bitPos);
        var otherMask := Pow2(BIT_LEN - bitPos) - 1;
        var otherPart := And(other.code, otherMask);
        var selfMask := MAX_VALUE - otherMask;
        var selfPart := And(code, selfMask);
        SplicedEnds(code, other.code, bitPos);
        var ok := SetCode(selfPart + otherPart);
        assert ok;
      }
    }

    method Clone() returns (g: Gene)
      ensures fresh(g) && g.code == code
    {
      g := new Gene(code);
    }

    /** `str(gene)`: peels off the bits from the top, halving the place
        value each round. */
    method ToString() returns (s: string)
      ensures s == Binary(code)
    {
      s := [];
      var c: int := code;
      var rest := c;
      var ratedValue: int := Pow2(BIT_LEN - 1);
      LowBitsOfCode(c);
      for i := 0 to BIT_LEN
        invariant ratedValue == if i < BIT_LEN then Pow2(BIT_LEN - 1 - i) else 0
        invariant rest == LowBits(c, BIT_LEN - i)
        invariant s == Digits(Shr(c, BIT_LEN - i), i)
      {
        PeelStep(c, BIT_LEN - 1 - i, i, rest);
        if rest / ratedValue != 0 {
          s := s + ['1'];
          rest := rest - ratedValue;
        } else {
          s := s + ['0'];
        }
        ratedValue := ratedValue / 2;
      }
    }
  }
}
