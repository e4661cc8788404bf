/** A chromosome: a fixed list of genes, the box [minLimit, maxLimit) its
    genes are decoded into, and the fitness the engine assigns to it. */
module Chromosomes {
  import opened Arith
  import opened Wrappers
  import opened Genes
  import opened Crossover
  import opened Randomness

  /** The two ValueErrors `Chromosome.combine` raises. */
  datatype CombineError = NoDots | GenesMismatch

  /** Where a code lands in [lo, hi): `code * (hi - lo) / 2^16 + lo`. */
  function Scale(code: int, lo: real, hi: real): real
  {
    code as real * (hi - lo) / (MAX_VALUE + 1) as real + lo
  }

  /** The tuple `get_limited_values` returns for a list of codes. */
  function Decode(codes: seq<int>, lo: real, hi: real): (vs: seq<real>)
    ensures |vs| == |codes|
  {
    seq(|codes|, i requires 0 <= i < |codes| => Scale(codes[i], lo, hi))
  }

  /** A code decodes into the box: the lowest code to `lo`, every code below
      `hi` when the box is not empty, and all of them to `lo` when it is a
      point. */
  lemma ScaleBounds(code: int, lo: real, hi: real)
    requires InRange(code) && lo <= hi
    ensures lo <= Scale(code, lo, hi) <= hi
    ensures lo < hi ==> Scale(code, lo, hi) < hi
    ensures code == MIN_VALUE ==> Scale(code, lo, hi) == lo
    ensures lo == hi ==> Scale(code, lo, hi) == lo
  {
    var w := hi - lo;
    var f := code as real / 65536.0;
    assert 0.0 <= f < 1.0;
    assert Scale(code, lo, hi) == f * w + lo;
    if lo < hi {
      assert f * w < w;
    }
  }

  /** Decoding is strictly increasing in the code on a non-empty box. */
  lemma ScaleMonotone(c1: int, c2: int, lo: real, hi: real)
    requires lo < hi && c1 < c2
    ensures Scale(c1, lo, hi) < Scale(c2, lo, hi)
  {
    var w := hi - lo;
    assert Scale(c2, lo, hi) - Scale(c1, lo, hi) == (c2 - c1) as real * w / 65536.0;
  }

  /** On a non-empty box the code is recovered from its decoded value. */
  lemma ScaleInverse(code: int, lo: real, hi: real)
    requires lo < hi
    ensures (Scale(code, lo, hi) - lo) * 65536.0 / (hi - lo) == code as real
  {
    var w := hi - lo;
    assert Scale(code, lo, hi) - lo == code as real * w / 65536.0;
  }

  /** Every value of a decoded valid chromosome lies in its box. */
  lemma DecodeInBox(codes: seq<int>, lo: real, hi: real)
    requires AllInRange(codes) && lo < hi
    ensures forall i :: 0 <= i < |codes| ==> lo <= Decode(codes, lo, hi)[i] < hi
  {
    forall i | 0 <= i < |codes|
      ensures lo <= Decode(codes, lo, hi)[i] < hi
    {
      ScaleBounds(codes[i], lo, hi);
    }
  }

  /** The codes `_fill_randomly` draws: `randint(0, 2^16 - 1)` per gene. */
  function Draws(stream: nat -> nat, from: nat, n: nat): (cs: seq<int>)
    ensures |cs| == n
  {
    seq(n, k requires 0 <= k < n => MIN_VALUE + stream(from + k) % (MAX_VALUE - MIN_VALUE + 1))
  }

  lemma DrawsInRange(stream: nat -> nat, from: nat, n: nat)
    ensures AllInRange(Draws(stream, from, n))
  {
  }

  /** `str(chromosome)`: the gene renderings joined with dots. */
  function Rendered(cs: seq<int>): string
    requires AllInRange(cs)
  {
    if cs == [] then
      []
    else if |cs| == 1 then
      Binary(cs[0])
    else
      Rendered(cs[..|cs| - 1]) + "." + Binary(cs[|cs| - 1])
  }

  /** The layout of the rendering: gene `i` occupies characters
      [17 i, 17 i + 16) and a dot follows every gene but the last. */
  lemma {:induction false} RenderedLayout(cs: seq<int>)
    requires AllInRange(cs) && cs != []
    ensures |Rendered(cs)| == (BIT_LEN + 1) * |cs| - 1
    ensures forall p :: 0 <= p < |Rendered(cs)| ==>
      Rendered(cs)[p] == if p % (BIT_LEN + 1) == BIT_LEN then '.' else Binary(cs[p / (BIT_LEN + 1)])[p % (BIT_LEN + 1)]
  {
    if |cs| > 1 {
      RenderedLayout(cs[..|cs| - 1]);
      forall p | 0 <= p < |Rendered(cs)|
        ensures Rendered(cs)[p]
          == if p % (BIT_LEN + 1) == BIT_LEN then '.' else Binary(cs[p / (BIT_LEN + 1)])[p % (BIT_LEN + 1)]
      {
        LayoutStep(cs, p);
      }
    }
  }

  /** Character `p` of the rendering, given the layout of all genes but the
      last. */
  lemma LayoutStep(cs: seq<int>, p: nat)
    requires AllInRange(cs) && |cs| > 1
    requires var init := cs[..|cs| - 1];
      && |Rendered(init)| == (BIT_LEN + 1) * |init| - 1
      && forall p :: 0 <= p < |Rendered(init)| ==>
           Rendered(init)[p]
             == if p % (BIT_LEN + 1) == BIT_LEN then '.' else Binary(init[p / (BIT_LEN + 1)])[p % (BIT_LEN + 1)]
    requires p < (BIT_LEN + 1) * |cs| - 1
    ensures |Rendered(cs)| == (BIT_LEN + 1) * |cs| - 1
    ensures Rendered(cs)[p]
      == if p % (BIT_LEN + 1) == BIT_LEN then '.' else Binary(cs[p / (BIT_LEN + 1)])[p % (BIT_LEN + 1)]
  {
    var init, n := cs[..|cs| - 1], |cs| - 1;
    var r := Rendered(cs);
    assert r == Rendered(init) + "." + Binary(cs[n]);
    if p < |Rendered(init)| {
      assert init[p / (BIT_LEN + 1)] == cs[p / (BIT_LEN + 1)];
    } else if p == |Rendered(init)| {
      DivModUnique(p, BIT_LEN + 1, n - 1, BIT_LEN);
    } else {
      var j := p - (BIT_LEN + 1) * n;
      DivModUnique(p, BIT_LEN + 1, n, j);
    }
  }

  /** Different code lists render differently. */
  lemma RenderedInjective(cs: seq<int>, ds: seq<int>)
    requires AllInRange(cs) && AllInRange(ds)
    requires Rendered(cs) == Rendered(ds)
    ensures cs == ds
  {
    if cs == [] || ds == [] {
      if cs != [] {
        RenderedLayout(cs);
      }
      if ds != [] {
        RenderedLayout(ds);
      }
    } else {
      RenderedLayout(cs);
      RenderedLayout(ds);
      assert |cs| == |ds|;
      forall i | 0 <= i < |cs|
        ensures cs[i] == ds[i]
      {
        SameGene(cs, ds, i);
      }
    }
  }

  /** Gene `i` of two equally long renderings that agree is the same. */
  lemma SameGene(cs: seq<int>, ds: seq<int>, i: nat)
    requires AllInRange(cs) && AllInRange(ds) && cs != [] && |cs| == |ds| && i < |cs|
    requires Rendered(cs) == Rendered(ds)
    ensures cs[i] == ds[i]
  {
    RenderedLayout(cs);
    RenderedLayout(ds);
    assert Binary(cs[i]) == Binary(ds[i]) by {
      forall j | 0 <= j < BIT_LEN
        ensures Binary(cs[i])[j] == Binary(ds[i])[j]
      {
        var p := (BIT_LEN + 1) * i + j;
        DivModUnique(p, BIT_LEN + 1, i, j);
        assert Rendered(cs)[p] == Rendered(ds)[p];
      }
    }
    BinaryRoundTrip(cs[i], Binary(ds[i]));
    BinaryRoundTrip(ds[i], Binary(ds[i]));
  }

  class Chromosome {
    const genesNumber: nat
    const minLimit: real
    const maxLimit: real
    const genes: seq<Gene>
    var fitness: Option<real>

    /** The codes of the genes, in order. */
    function Codes(): (cs: seq<int>)
      reads genes
      ensures |cs| == |genes| && AllInRange(cs)
      ensures forall i :: 0 <= i < |genes| ==> cs[i] == genes[i].code
    {
      seq(|genes|, i reads genes requires 0 <= i < |genes| => genes[i].code)
    }

    /** `Chromosome(n, lo, hi, genes)` once its gene list is settled. */
    constructor (genesNumber: nat, minLimit: real, maxLimit: real, genes: seq<Gene>)
      ensures this.genesNumber == genesNumber && this.minLimit == minLimit && this.maxLimit == maxLimit
      ensures this.genes == genes && fitness == None
    {
      this.genesNumber := genesNumber;
      this.minLimit := minLimit;
      this.maxLimit := maxLimit;
      this.genes := genes;
      fitness := None;
    }

    /** `_fill_randomly`: `n` fresh genes, each `randint(0, 2^16 - 1)`. */
    static method FillRandomly(n: nat, rng: Rng) returns (gs: seq<Gene>, next: Rng)
      ensures |gs| == n && forall g <- gs :: fresh(g)
      ensures forall k :: 0 <= k < n ==> gs[k].code == Draws(rng.stream, rng.drawn, n)[k]
      ensures next.stream == rng.stream && next.drawn == rng.drawn + n
    {
      gs := [];
      next := rng;
      for i := 0 to n
        invariant |gs| == i && next.stream == rng.stream && next.drawn == rng.drawn + i
        invariant forall k :: 0 <= k < i ==> fresh(gs[k])
        invariant forall k :: 0 <= k < i ==> gs[k].code == Draws(rng.stream, rng.drawn, n)[k]
      {
        var number;
        number, next := next.RandInt(MIN_VALUE, MAX_VALUE);
        var g := new Gene(number);
        gs := gs + [g];
      }
    }

    /** `Chromosome(n, lo, hi, genes)`: the given genes when the list is
        non-empty, a random fill of `n` genes otherwise. */
    static method Create(genesNumber: nat, minLimit: real, maxLimit: real, genes: seq<Gene>, rng: Rng)
      returns (c: Chromosome, next: Rng)
      ensures fresh(c) && c.fitness == None
      ensures c.genesNumber == genesNumber && c.minLimit == minLimit && c.maxLimit == maxLimit
      ensures next.stream == rng.stream
      ensures genes != [] ==> c.genes == genes && next.drawn == rng.drawn
      ensures genes == [] ==>
        && |c.genes| == genesNumber && (forall g <- c.genes :: fresh(g))
        && c.Codes() == Draws(rng.stream, rng.drawn, genesNumber)
        && next.drawn == rng.drawn + genesNumber
    {
      var gs := genes;
      next := rng;
      if genes == [] {
        gs, next := FillRandomly(genesNumber, rng);
      }
      c := new Chromosome(genesNumber, minLimit, maxLimit, gs);
    }

    /** `get_limited_values`: each gene decoded into the box. */
    method GetLimitedValues() returns (values: seq<real>)
      ensures values == Decode(Codes(), minLimit, maxLimit)
    {
      values := [];
      for i := 0 to |genes|
        invariant |values| == i
        invariant forall k :: 0 <= k < i ==> values[k] == Scale(genes[k].code, minLimit, maxLimit)
      {
        var limitsInterval := maxLimit - minLimit;
        var limited := genes[i].code as real * limitsInterval / (MAX_VALUE + 1) as real + minLimit;
        values := values + [limited];
      }
    }

    /** `combine`: the child of this chromosome and `other` crossed over at
        the bit offsets `dots`, built from fresh genes; this chromosome and
        `other` are left as they were. */
    method Combine(other: Chromosome, dots: seq<int>) returns (r: Result<Chromosome, CombineError>)
      ensures dots == [] ==> r == Err(NoDots)
      ensures dots != [] && |genes| != |other.genes| ==> r == Err(GenesMismatch)
      ensures r.Ok? <==> dots != [] && |genes| == |other.genes|
      ensures r.Ok? ==>
        && fresh(r.value) && (forall g <- r.value.genes :: fresh(g))
        && r.value.genesNumber == genesNumber && r.value.fitness == None
        && r.value.minLimit == minLimit && r.value.maxLimit == maxLimit
        && r.value.Codes() == Child(Codes(), other.Codes(), Sort(dots))
    {
      if |dots| == 0 {
        return Err(NoDots);
      } else if |genes| != |other.genes| {
        return Err(GenesMismatch);
      }
      ghost var a, b := Codes(), other.Codes();
      var dotList := Sort(dots);
      ghost var want := Child(a, b, dotList);
      var dotIdx := 0;
      var curr, next := this, other;
      var newGenes: seq<Gene> := [];
      for idx := 0 to |genes|
        invariant |newGenes| == idx && dotIdx == Before(dotList, idx)
        invariant if dotIdx % 2 == 0 then curr == this && next == other else curr == other && next == this
        invariant forall k :: 0 <= k < idx ==> fresh(newGenes[k])
        invariant forall k :: 0 <= k < idx ==> newGenes[k].code == want[k]
      {
        var g;
        g, dotIdx, curr, next := PlaceGene(other, idx, dotList, dotIdx, curr, next);
        newGenes := newGenes + [g];
      }
      ChildInRange(a, b, dotList);
      var child := new Chromosome(genesNumber, minLimit, maxLimit, newGenes);
      return Ok(child);
    }

    /** One pass of `combine`'s outer loop: a clone of the current donor's
        gene `idx`, with the points of that gene spliced in. */
    method PlaceGene(other: Chromosome, idx: nat, dotList: seq<int>, dotIdx: nat, curr: Chromosome, next: Chromosome)
      returns (g: Gene, endIdx: nat, endCurr: Chromosome, endNext: Chromosome)
      requires |genes| == |other.genes| && idx < |genes|
      requires dotIdx == Before(dotList, idx)
      requires if dotIdx % 2 == 0 then curr == this && next == other else curr == other && next == this
      ensures fresh(g) && g.code == ChildGene(Codes(), other.Codes(), dotList, idx)
      ensures endIdx == Before(dotList, idx + 1)
      ensures if endIdx % 2 == 0 then endCurr == this && endNext == other else endCurr == other && endNext == this
    {
      g := curr.genes[idx].Clone();
      endIdx, endCurr, endNext := SpliceIn(g, idx, dotList, dotIdx, curr, next);
    }

    /** The inner loop of `combine`: splices into the new gene `g` each
        point from `dotIdx` on that falls in gene `idx`, the donors trading
        places after every point, and stops at the first point beyond it. */
    static method SpliceIn(g: Gene, idx: nat, dotList: seq<int>, dotIdx: nat, curr: Chromosome, next: Chromosome)
      returns (endIdx: nat, endCurr: Chromosome, endNext: Chromosome)
      requires idx < |curr.genes| && idx < |next.genes|
      requires g !in curr.genes && g !in next.genes
      requires dotIdx <= Consumed(dotList, idx)
      modifies g
      ensures endIdx == Consumed(dotList, idx)
      ensures endIdx % 2 == dotIdx % 2 ==> endCurr == curr && endNext == next
      ensures endIdx % 2 != dotIdx % 2 ==> endCurr == next && endNext == curr
      ensures g.code == SpliceRun(old(g.code), curr.genes[idx].code, next.genes[idx].code, Positions(dotList[dotIdx..endIdx]))
    {
      ghost var k1 := Consumed(dotList, idx);
      ConsumedStops(dotList, idx);
      endIdx, endCurr, endNext := dotIdx, curr, next;
      ghost var swapped := false;
      while endIdx < |dotList|
        invariant dotIdx <= endIdx <= k1
        invariant swapped <==> endIdx % 2 != dotIdx % 2
        invariant !swapped ==> endCurr == curr && endNext == next
        invariant swapped ==> endCurr == next && endNext == curr
        invariant SpliceRun(g.code, endCurr.genes[idx].code, endNext.genes[idx].code, Positions(dotList[endIdx..k1]))
          == SpliceRun(old(g.code), curr.genes[idx].code, next.genes[idx].code, Positions(dotList[dotIdx..k1]))
        decreases |dotList| - endIdx
      {
        var posInChrm := dotList[endIdx] / BIT_LEN;
        if posInChrm > idx {
          break;
        }
        var posInGene := dotList[endIdx] % BIT_LEN;
        ghost var placed, cc, nc := g.code, endCurr.genes[idx].code, endNext.genes[idx].code;
        CursorStep(dotList, endIdx, k1, placed, cc, nc);
        g.Combine(endNext.genes[idx], posInGene);
        assert g.code == Spliced(placed, nc, posInGene);
        assert endCurr.genes[idx].code == cc && endNext.genes[idx].code == nc;
        endCurr, endNext := endNext, endCurr;
        assert (endIdx + 1) % 2 != endIdx % 2;
        endIdx := endIdx + 1;
        swapped := !swapped;
      }
      assert endIdx == k1;
      assert Positions(dotList[endIdx..k1]) == [];
    }

    /** `str(chromosome)`. */
    method ToString() returns (s: string)
      ensures AllInRange(Codes()) && s == Rendered(Codes())
    {
      s := "";
      for i := 0 to |genes|
        invariant AllInRange(Codes()[..i]) && s == Rendered(Codes()[..i])
      {
        var part := genes[i].ToString();
        assert Codes()[..i + 1][..i] == Codes()[..i];
        if i == 0 {
          s := part;
        } else {
          s := s + "." + part;
        }
      }
      assert Codes()[..|genes|] == Codes();
    }
  }
}
