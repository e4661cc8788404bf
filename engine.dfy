/** `GACore`: the generational loop that searches a box for the arguments
    at which a function comes closest to a known optimum. Every random draw
    comes from a generator value the caller supplies and gets back. */
module Engine {
  import opened Wrappers
  import opened Genes
  import opened Crossover
  import opened Randomness
  import opened Chromosomes
  import opened Ranking
  import opened Stagnation

  const MUTATION_RATE: real := 0.05
  const POPULATION: nat := 250
  const ELITISM_RATE: real := 0.1
  /** `round(POPULATION * ELITISM_RATE)`. */
  const BEST_PARENTS: nat := 25

  function Abs(x: real): real
  {
    if x < 0.0 then -x else x
  }

  /** The genes of every chromosome of a generation. */
  ghost function GenesOf(gen: seq<Chromosome>): set<Gene>
  {
    set c, g | c in gen && g in c.genes :: g
  }

  /** The codes of every chromosome of a generation. */
  function CodesOf(gen: seq<Chromosome>): (css: seq<seq<int>>)
    reads GenesOf(gen)
    ensures |css| == |gen|
    ensures forall i :: 0 <= i < |gen| ==> css[i] == gen[i].Codes()
  {
    seq(|gen|, i reads GenesOf(gen) requires 0 <= i < |gen| =>
      assert forall g <- gen[i].genes :: g in GenesOf(gen); gen[i].Codes())
  }

  lemma CodesOfAppend(gen: seq<Chromosome>, c: Chromosome)
    ensures CodesOf(gen + [c]) == CodesOf(gen) + [c.Codes()]
  {
    var l, r := CodesOf(gen + [c]), CodesOf(gen) + [c.Codes()];
    forall k | 0 <= k < |l|
      ensures l[k] == r[k]
    {
      if k < |gen| {
        assert (gen + [c])[k] == gen[k];
      }
    }
  }

  /** The stored fitness of each chromosome of a scored generation. */
  function Keys(gen: seq<Chromosome>): (ks: seq<real>)
    reads gen
    requires forall c <- gen :: c.fitness.Some?
    ensures |ks| == |gen|
    ensures forall i :: 0 <= i < |gen| ==> ks[i] == gen[i].fitness.value
  {
    seq(|gen|, i reads gen requires 0 <= i < |gen| && gen[i].fitness.Some? => gen[i].fitness.value)
  }

  /** No member of `gen` before position `i` is as fit as the one at `i`. */
  predicate FirstOfLeast(gen: seq<Chromosome>, i: nat)
    reads gen
    requires i < |gen| && forall c <- gen :: c.fitness.Some?
  {
    forall j :: 0 <= j < i ==> gen[i].fitness.value < gen[j].fitness.value
  }

  /** `elite` lists the members of `gen` at the distinct positions `order`,
      members of equal fitness in the order they have in `gen`. */
  predicate StablePositions(elite: seq<Chromosome>, gen: seq<Chromosome>, order: seq<nat>)
    reads gen
  {
    && |order| == |elite|
    && (forall k :: 0 <= k < |order| ==> order[k] < |gen| && elite[k] == gen[order[k]])
    && (forall k, l :: 0 <= k < l < |order| ==>
          order[k] != order[l]
          && (gen[order[k]].fitness == gen[order[l]].fitness ==> order[k] < order[l]))
  }

  /** The two cut points `_combine_randomly` draws for chromosomes of `n`
      genes from the draws `s1` and `s2`: `randint(1, 16n - 2)`, then
      `randint(point1, 16n - 1)`. */
  function CutPoints(n: nat, s1: nat, s2: nat): (p: (int, int))
    requires n >= 1
    ensures 1 <= p.0 <= p.1 <= n * BIT_LEN - 1
  {
    var p1 := Between(s1, 1, n * BIT_LEN - 2);
    (p1, Between(s2, p1, n * BIT_LEN - 1))
  }

  /** The codes of the child `_combine_randomly(chrm1, chrm2)` returns, for
      parents with codes `codes1` and `codes2`, chromosomes of `n` genes and
      the cut-point draws `s1`, `s2`. */
  function Crossed(codes1: seq<int>, codes2: seq<int>, n: nat, s1: nat, s2: nat): (c: seq<int>)
    requires |codes1| == |codes2| && n >= 1
    ensures |c| == |codes2|
  {
    var p := CutPoints(n, s1, s2);
    Child(codes2, codes1, [p.0, p.1])
  }

  /** Two-point crossover: a bit of the child comes from the second parent
      exactly when its offset lies in [p1, p2). */
  lemma TwoPointCrossover(a: seq<int>, b: seq<int>, p1: int, p2: int, i: nat, q: nat)
    requires |a| == |b| && AllInRange(a) && AllInRange(b)
    requires 0 <= p1 <= p2 && i < |a| && q < BIT_LEN
    ensures InRange(Child(a, b, [p1, p2])[i])
    ensures Binary(Child(a, b, [p1, p2])[i])[q]
      == Binary(if p1 <= i * BIT_LEN + q < p2 then b[i] else a[i])[q]
  {
    ChildBitsSorted(a, b, [p1, p2], i, q);
    TwoPointCount(p1, p2, i * BIT_LEN + q);
  }

  /** An odd number of the two points lie at or before `j` exactly when
      `j` lies in [p1, p2). */
  lemma TwoPointCount(p1: int, p2: int, j: int)
    requires p1 <= p2
    ensures CountAtMost([p1, p2], j) % 2 == 1 <==> p1 <= j < p2
  {
    assert [p1, p2][1..] == [p2];
    assert CountAtMost([p2], j) == if p2 <= j then 1 else 0;
  }

  /** A crossing takes each bit of the child from one of its two parents:
      from `codes1` between the two cut points, from `codes2` elsewhere. */
  lemma CrossedBits(codes1: seq<int>, codes2: seq<int>, n: nat, s1: nat, s2: nat, i: nat, q: nat)
    requires |codes1| == |codes2| && n >= 1 && AllInRange(codes1) && AllInRange(codes2)
    requires i < |codes1| && q < BIT_LEN
    ensures var p := CutPoints(n, s1, s2);
      && InRange(Crossed(codes1, codes2, n, s1, s2)[i])
      && Binary(Crossed(codes1, codes2, n, s1, s2)[i])[q]
           == Binary(if p.0 <= i * BIT_LEN + q < p.1 then codes1[i] else codes2[i])[q]
  {
    var p := CutPoints(n, s1, s2);
    TwoPointCrossover(codes2, codes1, p.0, p.1, i, q);
  }

  predicate AllOfLength(css: seq<seq<int>>, n: nat)
  {
    forall k :: 0 <= k < |css| ==> |css[k]| == n
  }

  /** The codes of the child `_cross_over` breeds from the draws at `d`
      onwards: father, mother, then the two cut points. */
  function Bred(css: seq<seq<int>>, n: nat, stream: nat -> nat, d: nat): (c: seq<int>)
    requires css != [] && n >= 1 && AllOfLength(css, n)
    ensures |c| == n
  {
    Crossed(css[Pick(stream(d), |css|)], css[Pick(stream(d + 1), |css|)], n,
            stream(d + 2), stream(d + 3))
  }

  lemma BredExtend(css: seq<seq<int>>, n: nat, rng: Rng, cur: Rng, want: seq<seq<int>>, x: seq<int>)
    requires css != [] && n >= 1 && AllOfLength(css, n)
    requires forall k :: 0 <= k < |want| ==> want[k] == Bred(css, n, rng.stream, rng.drawn + 4 * k)
    requires cur.stream == rng.stream && cur.drawn == rng.drawn + 4 * |want|
    requires var d := cur.drawn;
      x == Crossed(css[Pick(cur.At(d), |css|)], css[Pick(cur.At(d + 1), |css|)], n, cur.At(d + 2), cur.At(d + 3))
    ensures forall k :: 0 <= k < |want| + 1 ==> (want + [x])[k] == Bred(css, n, rng.stream, rng.drawn + 4 * k)
  {
    assert x == Bred(css, n, rng.stream, rng.drawn + 4 * |want|);
  }

  /** Whether the draw `s` makes `random.random() < MUTATION_RATE` hold. */
  predicate Mutates(s: nat)
  {
    Fraction(s) < MUTATION_RATE
  }

  /** `min(applicants, key=fitness)` over two applicants: the fitter one,
      the first on a tie. */
  function Tournament(first: Chromosome, second: Chromosome): (w: Chromosome)
    reads first, second
    requires first.fitness.Some? && second.fitness.Some?
    ensures w == first || w == second
    ensures w.fitness.value <= first.fitness.value && w.fitness.value <= second.fitness.value
    ensures first.fitness.value == second.fitness.value ==> w == first
  {
    if second.fitness.value < first.fitness.value then second else first
  }

  /** Every list of `n` codes. */
  ghost function AllCodes(n: nat): (all: set<seq<int>>)
    ensures forall cs :: cs in all ==> |cs| == n
  {
    if n == 0 then {[]}
    else set c: int, cs | MIN_VALUE <= c <= MAX_VALUE && cs in AllCodes(n - 1) :: [c] + cs
  }

  lemma {:induction false} InAllCodes(cs: seq<int>)
    requires AllInRange(cs)
    ensures cs in AllCodes(|cs|)
  {
    if cs != [] {
      InAllCodes(cs[1..]);
      assert cs == [cs[0]] + cs[1..];
    }
  }

  /** The values of `s` strictly below `x`. */
  ghost function Below(s: set<real>, x: real): set<real>
  {
    set v | v in s && v < x
  }

  /** A smaller bound that is itself one of the values leaves fewer values
      below it. */
  lemma BelowShrinks(s: set<real>, x: real, y: real)
    requires y in s && y < x
    ensures |Below(s, y)| < |Below(s, x)|
  {
    var small, big := Below(s, y), Below(s, x);
    var rest := big - {y} - small;
    assert small !! rest && small <= big - {y};
    assert big - {y} == small + rest;
    assert |big - {y}| == |small| + |rest|;
    assert y in big && big == (big - {y}) + {y};
  }

  class GACore {

    const argsNumber: nat
    const func: seq<real> -> real
    const globalOptimum: real
    var generation: seq<Chromosome>
    var bestDescendant: Chromosome?
    /** The least fitness of each generation bred so far, in order. */
    ghost var history: seq<real>

    constructor (argsNumber: nat, func: seq<real> -> real, globalOptimum: real)
      ensures this.argsNumber == argsNumber && this.func == func && this.globalOptimum == globalOptimum
      ensures generation == [] && bestDescendant == null && history == []
    {
      this.argsNumber := argsNumber;
      this.func := func;
      this.globalOptimum := globalOptimum;
      generation := [];
      bestDescendant := null;
      history := [];
    }

    /** `_count_and_set_fitness`'s value for a chromosome with codes `cs`
        and limits `lo`, `hi`: the distance of the function's value at the
        decoded point from the global optimum. */
    function Fitness(cs: seq<int>, lo: real, hi: real): (f: real)
      ensures f >= 0.0
      ensures f == 0.0 <==> func(Decode(cs, lo, hi)) == globalOptimum
    {
      Abs(globalOptimum - func(Decode(cs, lo, hi)))
    }

    /** Every fitness a chromosome of `argsNumber` genes can have in the
        box [lo, hi]: finitely many, since there are finitely many codes. */
    ghost function Attainable(lo: real, hi: real): set<real>
    {
      set cs | cs in AllCodes(argsNumber) :: Fitness(cs, lo, hi)
    }

    lemma FitnessAttainable(cs: seq<int>, lo: real, hi: real)
      requires |cs| == argsNumber && AllInRange(cs)
      ensures Fitness(cs, lo, hi) in Attainable(lo, hi)
    {
      InAllCodes(cs);
    }

    /** A chromosome of this run's shape: `argsNumber` genes. */
    predicate Shaped(c: Chromosome)
    {
      |c.genes| == argsNumber && c.genesNumber == argsNumber
    }

    /** A chromosome as `find_extremum` builds them for the box [lo, hi]. */
    predicate Member(c: Chromosome, lo: real, hi: real)
    {
      Shaped(c) && c.minLimit == lo && c.maxLimit == hi
    }

    predicate Population(gen: seq<Chromosome>, lo: real, hi: real)
    {
      forall c <- gen :: Member(c, lo, hi)
    }

    /** The stored fitness is the one `_count_and_set_fitness` computes. */
    ghost predicate Scored(c: Chromosome)
      reads c, c.genes
    {
      c.fitness.Some? && c.fitness.value == Fitness(c.Codes(), c.minLimit, c.maxLimit)
    }

    /** `_create_new_generation`: POPULATION fresh chromosomes filled at
        random, one after the other. */
    method CreateNewGeneration(minVal: real, maxVal: real, rng: Rng) returns (next: Rng)
      modifies this
      ensures history == old(history)
      ensures |generation| == POPULATION && Population(generation, minVal, maxVal)
      ensures forall i :: 0 <= i < |generation| ==> fresh(generation[i]) && generation[i].fitness == None
      ensures forall i :: 0 <= i < |generation| ==>
        generation[i].Codes() == Draws(rng.stream, rng.drawn + i * argsNumber, argsNumber)
      ensures next.stream == rng.stream && next.drawn == rng.drawn + POPULATION * argsNumber
      ensures bestDescendant == old(bestDescendant)
    {
      generation := [];
      next := rng;
      for i := 0 to POPULATION
        invariant |generation| == i && next.stream == rng.stream && next.drawn == rng.drawn + i * argsNumber
        invariant bestDescendant == old(bestDescendant) && history == old(history)
        invariant Population(generation, minVal, maxVal)
        invariant forall k :: 0 <= k < i ==> fresh(generation[k]) && generation[k].fitness == None
        invariant forall k :: 0 <= k < i ==>
          generation[k].Codes() == Draws(rng.stream, rng.drawn + k * argsNumber, argsNumber)
      {
        var c;
        c, next := Chromosome.Create(argsNumber, minVal, maxVal, [], next);
        generation := generation + [c];
        assert (i + 1) * argsNumber == i * argsNumber + argsNumber;
      }
    }

    /** `_count_and_set_fitness`. */
    method CountAndSetFitness(chrm: Chromosome)
      modifies chrm
      ensures Scored(chrm)
    {
      var values := chrm.GetLimitedValues();
      var funcValue := func(values);
      chrm.fitness := Some(Abs(globalOptimum - funcValue));
    }

    /** `_count_and_set_population_fitness`: every chromosome of `gen`
        carries its fitness afterwards. */
    method CountAndSetPopulationFitness(gen: seq<Chromosome>)
      modifies gen
      ensures forall i :: 0 <= i < |gen| ==> Scored(gen[i])
    {
      for i := 0 to |gen|
        invariant forall k :: 0 <= k < i ==> Scored(gen[k])
      {
        CountAndSetFitness(gen[i]);
      }
    }

    /** `_tournament_select`: POPULATION winners of two-applicant
        tournaments, the applicants drawn with `random.choice`. */
    method TournamentSelect(rng: Rng) returns (selected: seq<Chromosome>, next: Rng)
      requires generation != []
      requires forall c <- generation :: c.fitness.Some?
      ensures next.stream == rng.stream && next.drawn == rng.drawn + 2 * POPULATION
      ensures |selected| == POPULATION
      ensures forall i :: 0 <= i < |selected| ==> selected[i] in generation
      ensures forall i :: 0 <= i < |selected| ==>
        selected[i] == Tournament(generation[Pick(rng.At(rng.drawn + 2 * i), |generation|)],
                                  generation[Pick(rng.At(rng.drawn + 2 * i + 1), |generation|)])
    {
      selected := [];
      next := rng;
      for i := 0 to POPULATION
        invariant |selected| == i && next.stream == rng.stream && next.drawn == rng.drawn + 2 * i
        invariant forall k :: 0 <= k < i ==> selected[k] in generation
        invariant forall k :: 0 <= k < i ==>
          selected[k] == Tournament(generation[Pick(rng.At(rng.drawn + 2 * k), |generation|)],
                                    generation[Pick(rng.At(rng.drawn + 2 * k + 1), |generation|)])
      {
        var first, second;
        first, next := next.Choice(generation);
        second, next := next.Choice(generation);
        selected := selected + [Tournament(first, second)];
      }
    }

    /** `_combine_randomly`: `chrm2.combine(chrm1, [point1, point2])` at two
        drawn cut points; by `CrossedBits`, the child carries `chrm1`'s bits
        from point1 up to point2 and `chrm2`'s elsewhere. */
    method CombineRandomly(chrm1: Chromosome, chrm2: Chromosome, rng: Rng) returns (child: Chromosome, next: Rng)
      requires |chrm1.genes| == |chrm2.genes| && chrm1.genesNumber >= 1
      ensures next.stream == rng.stream && next.drawn == rng.drawn + 2
      ensures fresh(child) && (forall g <- child.genes :: fresh(g)) && child.fitness == None
      ensures child.genesNumber == chrm2.genesNumber && |child.genes| == |chrm2.genes|
      ensures child.minLimit == chrm2.minLimit && child.maxLimit == chrm2.maxLimit
      ensures child.Codes()
        == Crossed(chrm1.Codes(), chrm2.Codes(), chrm1.genesNumber, rng.At(rng.drawn), rng.At(rng.drawn + 1))
    {
      var point1, point2;
      point1, next := rng.RandInt(1, chrm1.genesNumber * BIT_LEN - 2);
      point2, next := next.RandInt(point1, chrm1.genesNumber * BIT_LEN - 1);
      assert (point1, point2) == CutPoints(chrm1.genesNumber, rng.At(rng.drawn), rng.At(rng.drawn + 1));
      SortPair(point1, point2);
      var r := chrm2.Combine(chrm1, [point1, point2]);
      child := r.value;
    }

    /** The state `_cross_over`'s loop keeps: `newGen` holds the children
        bred so far from `selected`, with codes `want`, each the child of
        the draws from `rng`'s position onwards four at a time, and `cur` is
        the generator after them. */
    ghost predicate Breeding(selected: seq<Chromosome>, css: seq<seq<int>>, newGen: seq<Chromosome>,
                             want: seq<seq<int>>, lo: real, hi: real, rng: Rng, cur: Rng)
      reads GenesOf(selected), GenesOf(newGen), newGen
    {
      && selected != [] && argsNumber >= 1 && Population(selected, lo, hi)
      && CodesOf(selected) == css && AllOfLength(css, argsNumber)
      && Population(newGen, lo, hi) && CodesOf(newGen) == want
      && cur.stream == rng.stream && cur.drawn == rng.drawn + 4 * |newGen|
      && (forall k :: 0 <= k < |want| ==> want[k] == Bred(css, argsNumber, rng.stream, rng.drawn + 4 * k))
      && (forall k :: 0 <= k < |newGen| ==> newGen[k].fitness == None)
    }

    /** `_cross_over`: POPULATION - BEST_PARENTS children, each of a father
        and a mother drawn with `random.choice` from `selected`. */
    method CrossOver(selected: seq<Chromosome>, rng: Rng, ghost lo: real, ghost hi: real)
      returns (newGen: seq<Chromosome>, next: Rng)
      requires selected != [] && argsNumber >= 1 && Population(selected, lo, hi)
      ensures next.stream == rng.stream && next.drawn == rng.drawn + 4 * (POPULATION - BEST_PARENTS)
      ensures |newGen| == POPULATION - BEST_PARENTS && Population(newGen, lo, hi)
      ensures forall i :: 0 <= i < |newGen| ==> fresh(newGen[i]) && newGen[i].fitness == None
      ensures AllOfLength(CodesOf(selected), argsNumber)
      ensures forall i :: 0 <= i < |newGen| ==>
        newGen[i].Codes() == Bred(CodesOf(selected), argsNumber, rng.stream, rng.drawn + 4 * i)
    {
      ghost var css := CodesOf(selected);
      assert AllOfLength(css, argsNumber) by {
        forall k | 0 <= k < |css|
          ensures |css[k]| == argsNumber
        {
          assert Member(selected[k], lo, hi);
        }
      }
      newGen, next := [], rng;
      ghost var want: seq<seq<int>> := [];
      for i := 0 to POPULATION - BEST_PARENTS
        invariant |newGen| == i && forall k :: 0 <= k < i ==> fresh(newGen[k])
        invariant Breeding(selected, css, newGen, want, lo, hi, rng, next)
      {
        newGen, want, next := BreedNext(selected, rng, lo, hi, css, newGen, want, next);
      }
    }

    /** One pass of `_cross_over`'s loop: the next child appended. */
    method BreedNext(selected: seq<Chromosome>, ghost rng: Rng, ghost lo: real, ghost hi: real,
                     ghost css: seq<seq<int>>, newGen: seq<Chromosome>, ghost want: seq<seq<int>>, cur: Rng)
      returns (more: seq<Chromosome>, ghost want': seq<seq<int>>, next: Rng)
      requires Breeding(selected, css, newGen, want, lo, hi, rng, cur)
      ensures |more| == |newGen| + 1 && fresh(more[|newGen|])
      ensures forall k :: 0 <= k < |newGen| ==> more[k] == newGen[k]
      ensures Breeding(selected, css, more, want', lo, hi, rng, next)
    {
      var child;
      child, next := BreedOne(selected, cur, lo, hi);
      assert Breeding(selected, css, newGen, want, lo, hi, rng, cur);
      BreedingGrows(selected, css, newGen, want, lo, hi, rng, cur, child, next);
      more := newGen + [child];
      want' := want + [child.Codes()];
    }

    lemma BreedingGrows(selected: seq<Chromosome>, css: seq<seq<int>>, newGen: seq<Chromosome>,
                        want: seq<seq<int>>, lo: real, hi: real, rng: Rng, cur: Rng, child: Chromosome, next: Rng)
      requires Breeding(selected, css, newGen, want, lo, hi, rng, cur)
      requires Member(child, lo, hi) && child.fitness == None
      requires next.stream == cur.stream && next.drawn == cur.drawn + 4
      requires var d := cur.drawn;
        var father, mother := selected[Pick(cur.At(d), |selected|)], selected[Pick(cur.At(d + 1), |selected|)];
        && |father.genes| == |mother.genes|
        && child.Codes() == Crossed(father.Codes(), mother.Codes(), argsNumber, cur.At(d + 2), cur.At(d + 3))
      ensures Breeding(selected, css, newGen + [child], want + [child.Codes()], lo, hi, rng, next)
    {
      var d := cur.drawn;
      var f, m := Pick(cur.At(d), |selected|), Pick(cur.At(d + 1), |selected|);
      assert selected[f].Codes() == css[f] && selected[m].Codes() == css[m];
      BredExtend(css, argsNumber, rng, cur, want, child.Codes());
      CodesOfAppend(newGen, child);
      var more := newGen + [child];
      assert forall k :: 0 <= k < |newGen| ==> more[k] == newGen[k];
    }

    /** One pass of `_cross_over`'s loop: a father and a mother drawn from
        `selected`, and their child by `_combine_randomly`. */
    method BreedOne(selected: seq<Chromosome>, rng: Rng, ghost lo: real, ghost hi: real)
      returns (child: Chromosome, next: Rng)
      requires selected != [] && argsNumber >= 1 && Population(selected, lo, hi)
      ensures next.stream == rng.stream && next.drawn == rng.drawn + 4
      ensures fresh(child) && Member(child, lo, hi) && child.fitness == None
      ensures var d := rng.drawn;
        var father, mother := selected[Pick(rng.At(d), |selected|)], selected[Pick(rng.At(d + 1), |selected|)];
        && |father.genes| == |mother.genes|
        && child.Codes() == Crossed(father.Codes(), mother.Codes(), argsNumber, rng.At(d + 2), rng.At(d + 3))
    {
      var father, mother;
      father, next := rng.Choice(selected);
      mother, next := next.Choice(selected);
      child, next := CombineRandomly(father, mother, next);
    }

    /** `_best_parents`: the first BEST_PARENTS chromosomes of the current
        generation in stable fitness order. */
    function BestParents(): (elite: seq<Chromosome>)
      reads this, generation
      requires |generation| >= BEST_PARENTS
      requires forall c <- generation :: c.fitness.Some?
      ensures |elite| == BEST_PARENTS
      ensures forall k :: 0 <= k < |elite| ==> elite[k] in generation
    {
      var gen := generation;
      var keys := Keys(gen);
      RankIsStableSort(keys);
      var order := Rank(keys);
      seq(BEST_PARENTS, k requires 0 <= k < BEST_PARENTS => gen[order[k]])
    }

    /** Elitism: the elite is in ascending fitness order, taken from
        distinct positions of the generation with equal fitnesses in
        generation order, and no chromosome of the generation left out of
        it is fitter than any elite. */
    lemma BestParentsAreFittest()
      requires |generation| >= BEST_PARENTS
      requires forall c <- generation :: c.fitness.Some?
      ensures exists order :: StablePositions(BestParents(), generation, order)
      ensures var elite := BestParents();
        && (forall k, l :: 0 <= k < l < |elite| ==> elite[k].fitness.value <= elite[l].fitness.value)
        && (forall k, j :: 0 <= k < |elite| && 0 <= j < |generation| && generation[j] !in elite ==>
              elite[k].fitness.value <= generation[j].fitness.value)
    {
      var elite := BestParents();
      var keys := Keys(generation);
      var order := Rank(keys);
      RankIsStableSort(keys);
      RankElite(keys, BEST_PARENTS);
      var prefix := order[..BEST_PARENTS];
      forall k, l | 0 <= k < l < BEST_PARENTS
        ensures prefix[k] != prefix[l]
        ensures generation[prefix[k]].fitness == generation[prefix[l]].fitness ==> prefix[k] < prefix[l]
      {
        assert Precedes(keys, order[k], order[l]);
      }
      assert StablePositions(elite, generation, prefix);
      forall k, l | 0 <= k < l < |elite|
        ensures elite[k].fitness.value <= elite[l].fitness.value
      {
        assert Precedes(keys, order[k], order[l]);
      }
      forall k, j | 0 <= k < |elite| && 0 <= j < |generation| && generation[j] !in elite
        ensures elite[k].fitness.value <= generation[j].fitness.value
      {
        forall x | 0 <= x < BEST_PARENTS
          ensures order[..BEST_PARENTS][x] != j
        {
          assert elite[x] in elite;
        }
      }
    }

    /** `_mutate`, as the source writes it: with probability MUTATION_RATE
        it crosses a random member of the current generation with a fresh
        random chromosome and stores the mutant into the current generation;
        `newGeneration` is not touched. */
    method Mutate(newGeneration: seq<Chromosome>, minValue: real, maxValue: real, rng: Rng) returns (next: Rng)
      requires |generation| == POPULATION && argsNumber >= 1
      requires forall c <- generation :: Shaped(c)
      modifies this
      ensures bestDescendant == old(bestDescendant) && history == old(history) && next.stream == rng.stream
      ensures !Mutates(rng.At(rng.drawn)) ==> next.drawn == rng.drawn + 1 && generation == old(generation)
      ensures Mutates(rng.At(rng.drawn)) ==>
        var idx := Between(rng.At(rng.drawn + 1), 0, POPULATION - 1);
        && next.drawn == rng.drawn + argsNumber + 4 && |generation| == POPULATION
        && generation == old(generation)[idx := generation[idx]] && fresh(generation[idx])
        && IsMutant(generation[idx], old(generation)[idx], minValue, maxValue, rng.stream, rng.drawn + 2)
    {
      var x;
      x, next := rng.Random();
      if x < MUTATION_RATE {
        var chrmIdx;
        chrmIdx, next := next.RandInt(0, POPULATION - 1);
        var mutant;
        mutant, next := Mutant(generation[chrmIdx], minValue, maxValue, next);
        generation := generation[chrmIdx := mutant];
      }
    }

    /** `mutant` is what lines 189-190 of `_mutate` make of `parent` from
        the draws of `stream` at `d` onwards: a random mutagen for the box
        [lo, hi], then the two cut points at which `_combine_randomly(parent,
        mutagen)` crosses them. */
    ghost predicate IsMutant(mutant: Chromosome, parent: Chromosome, lo: real, hi: real, stream: nat -> nat, d: nat)
      reads mutant, mutant.genes, parent.genes
    {
      && Member(mutant, lo, hi) && mutant.fitness == None && Shaped(parent) && argsNumber >= 1
      && mutant.Codes()
           == Crossed(parent.Codes(), Draws(stream, d, argsNumber), argsNumber, stream(d + argsNumber), stream(d + argsNumber + 1))
    }

    /** Lines 189-190 of `_mutate`. */
    method Mutant(parent: Chromosome, minValue: real, maxValue: real, rng: Rng) returns (mutant: Chromosome, next: Rng)
      requires Shaped(parent) && argsNumber >= 1
      ensures next.stream == rng.stream && next.drawn == rng.drawn + argsNumber + 2
      ensures fresh(mutant) && IsMutant(mutant, parent, minValue, maxValue, rng.stream, rng.drawn)
    {
      var mutagen;
      mutagen, next := Chromosome.Create(argsNumber, minValue, maxValue, [], rng);
      ghost var mid := next;
      ghost var drawn := Draws(rng.stream, rng.drawn, argsNumber);
      assert mutagen.Codes() == drawn;
      assert mid.At(mid.drawn) == rng.stream(rng.drawn + argsNumber);
      assert mid.At(mid.drawn + 1) == rng.stream(rng.drawn + argsNumber + 1);
      mutant, next := CombineRandomly(parent, mutagen, next);
    }

    /** Lines 134-136 of `find_extremum`: tournament selection, then
        POPULATION - BEST_PARENTS children by crossover (see `CrossOver` for
        their codes) followed by the elite of the current generation. */
    method Offspring(minValue: real, maxValue: real, rng: Rng)
      returns (newGeneration: seq<Chromosome>, next: Rng)
      requires argsNumber >= 1 && |generation| == POPULATION && Population(generation, minValue, maxValue)
      requires forall c <- generation :: c.fitness.Some?
      ensures next.stream == rng.stream
      ensures |newGeneration| == POPULATION && Population(newGeneration, minValue, maxValue)
      ensures forall i :: 0 <= i < POPULATION - BEST_PARENTS ==> fresh(newGeneration[i])
      ensures newGeneration[POPULATION - BEST_PARENTS..] == BestParents()
    {
      var selected;
      selected, next := TournamentSelect(rng);
      var children;
      children, next := CrossOver(selected, next, minValue, maxValue);
      var elite := BestParents();
      newGeneration := children + elite;
      assert newGeneration[POPULATION - BEST_PARENTS..] == elite;
    }

    /** Lines 134-138 of `find_extremum`, one generation: the offspring,
        `_mutate` (which, as written, only touches the current generation),
        and every member of the new generation scored. */
    method NextGeneration(minValue: real, maxValue: real, rng: Rng)
      returns (newGeneration: seq<Chromosome>, next: Rng)
      requires argsNumber >= 1 && |generation| == POPULATION && Population(generation, minValue, maxValue)
      requires forall c <- generation :: c.fitness.Some? && Scored(c)
      requires bestDescendant != null && Scored(bestDescendant)
      modifies this, generation
      ensures bestDescendant == old(bestDescendant) && history == old(history) && Scored(bestDescendant)
      ensures next.stream == rng.stream
      ensures |newGeneration| == POPULATION && Population(newGeneration, minValue, maxValue)
      ensures forall c <- newGeneration :: c.fitness.Some? && Scored(c)
      ensures forall c <- newGeneration :: fresh(c) || c in old(generation)
      ensures newGeneration[POPULATION - BEST_PARENTS..] == old(BestParents())
    {
      newGeneration, next := Offspring(minValue, maxValue, rng);
      ghost var elite := BestParents();
      assert forall c <- newGeneration :: fresh(c) || c in old(generation) by {
        forall c <- newGeneration
          ensures fresh(c) || c in old(generation)
        {
          var i :| 0 <= i < |newGeneration| && newGeneration[i] == c;
          if i >= POPULATION - BEST_PARENTS {
            assert c == elite[i - (POPULATION - BEST_PARENTS)];
          }
        }
      }
      next := Mutate(newGeneration, minValue, maxValue, next);
      CountAndSetPopulationFitness(newGeneration);
    }

    /** Lines 134-145 of `find_extremum`, one pass of its loop: the next
        generation replaces the current one, its fittest member (the first
        in stable fitness order) becomes the champion only when strictly
        fitter, and the counter of rounds without improvement resets
        exactly then. */
    method Round(minValue: real, maxValue: real, counter: nat, rng: Rng)
      returns (counter': nat, next: Rng, ghost roundBest: real)
      requires argsNumber >= 1 && |generation| == POPULATION && Population(generation, minValue, maxValue)
      requires forall c <- generation :: c.fitness.Some? && Scored(c)
      requires bestDescendant != null && Member(bestDescendant, minValue, maxValue) && Scored(bestDescendant)
      modifies this, generation
      ensures next.stream == rng.stream
      ensures |generation| == POPULATION && Population(generation, minValue, maxValue)
      ensures forall c <- generation :: c.fitness.Some? && Scored(c)
      ensures forall c <- generation :: fresh(c) || c in old(generation)
      ensures history == old(history) + [roundBest]
      ensures roundBest == FittestOf(generation).fitness.value
      ensures bestDescendant
        == if roundBest < old(bestDescendant.fitness.value) then FittestOf(generation) else old(bestDescendant)
      ensures bestDescendant != null && Member(bestDescendant, minValue, maxValue) && Scored(bestDescendant)
      ensures Progress(bestDescendant.fitness.value, counter')
        == Step(Progress(old(bestDescendant.fitness.value), counter), roundBest)
      ensures forall c <- generation :: bestDescendant.fitness.value <= c.fitness.value
    {
      ghost var best, codes := bestDescendant.fitness.value, bestDescendant.Codes();
      var newGeneration;
      newGeneration, next := NextGeneration(minValue, maxValue, rng);
      assert bestDescendant.Codes() == codes;
      assert bestDescendant.fitness.value == best;
      counter', roundBest := Promote(newGeneration, minValue, maxValue, counter);
    }

    /** The second half of a round: the fittest of the new generation
        replaces the champion only when strictly fitter, the counter resets
        exactly then and advances otherwise, and the new generation becomes
        the current one. */
    method Promote(newGeneration: seq<Chromosome>, minValue: real, maxValue: real, counter: nat)
      returns (counter': nat, ghost roundBest: real)
      requires |newGeneration| == POPULATION && Population(newGeneration, minValue, maxValue)
      requires forall c <- newGeneration :: c.fitness.Some? && Scored(c)
      requires bestDescendant != null && Member(bestDescendant, minValue, maxValue) && Scored(bestDescendant)
      modifies this
      ensures generation == newGeneration && history == old(history) + [roundBest]
      ensures roundBest == old(FittestOf(newGeneration)).fitness.value
      ensures bestDescendant
        == if roundBest < old(bestDescendant.fitness.value) then old(FittestOf(newGeneration)) else old(bestDescendant)
      ensures bestDescendant != null && Member(bestDescendant, minValue, maxValue) && Scored(bestDescendant)
      ensures Progress(bestDescendant.fitness.value, counter')
        == Step(Progress(old(bestDescendant.fitness.value), counter), roundBest)
      ensures forall c <- newGeneration :: bestDescendant.fitness.value <= c.fitness.value
    {
      var bestOne := FittestOf(newGeneration);
      roundBest := bestOne.fitness.value;
      var champion := bestDescendant;
      if bestOne.fitness.value < champion.fitness.value {
        champion, counter' := bestOne, 0;
      } else {
        counter' := counter + 1;
      }
      bestDescendant, generation, history := champion, newGeneration, history + [roundBest];
    }

    /** Lines 127-129 of `find_extremum`: a random first generation, a
        first champion drawn from it with `randint`, then every member
        scored. */
    method Start(minValue: real, maxValue: real, rng: Rng) returns (next: Rng)
      modifies this
      ensures next.stream == rng.stream && history == old(history)
      ensures forall i :: 0 <= i < |generation| ==>
        generation[i].Codes() == Draws(rng.stream, rng.drawn + i * argsNumber, argsNumber)
      ensures |generation| == POPULATION && Population(generation, minValue, maxValue)
      ensures forall c <- generation :: fresh(c) && c.fitness.Some? && Scored(c)
      ensures bestDescendant
        == generation[Between(rng.At(rng.drawn + POPULATION * argsNumber), 0, POPULATION - 1)]
    {
      next := CreateNewGeneration(minValue, maxValue, rng);
      var idx;
      idx, next := next.RandInt(0, POPULATION - 1);
      bestDescendant := generation[idx];
      CountAndSetPopulationFitness(generation);
    }

    /** `find_extremum`: a random first generation and a random first
        champion, then generation after generation until MAX_COUNTS rounds
        in a row bring no strictly fitter champion; the decoded arguments
        of the champion are returned. `f0` is the first champion's fitness
        and `rounds` the best fitness of each generation bred. */
    method FindExtremum(minValue: real, maxValue: real, rng: Rng)
      returns (values: seq<real>, next: Rng, ghost f0: real, ghost rounds: seq<real>)
      requires argsNumber >= 1
      modifies this
      ensures bestDescendant != null && Member(bestDescendant, minValue, maxValue) && Scored(bestDescendant)
      ensures |values| == argsNumber && values == Decode(bestDescendant.Codes(), minValue, maxValue)
      ensures minValue < maxValue ==> forall i :: 0 <= i < |values| ==> minValue <= values[i] < maxValue
      ensures var first := Between(rng.At(rng.drawn + POPULATION * argsNumber), 0, POPULATION - 1);
        f0 == Fitness(Draws(rng.stream, rng.drawn + first * argsNumber, argsNumber), minValue, maxValue)
      ensures history == old(history) + rounds
      ensures rounds != [] && Track(f0, rounds) == Progress(bestDescendant.fitness.value, MAX_COUNTS)
      ensures |generation| == POPULATION && Population(generation, minValue, maxValue)
      ensures forall c <- generation :: c.fitness.Some? && Scored(c) && bestDescendant.fitness.value <= c.fitness.value
    {
      next := Start(minValue, maxValue, rng);
      assert Member(bestDescendant, minValue, maxValue);
      ghost var first := Between(rng.At(rng.drawn + POPULATION * argsNumber), 0, POPULATION - 1);
      assert bestDescendant.fitness.value
        == Fitness(Draws(rng.stream, rng.drawn + first * argsNumber, argsNumber), minValue, maxValue);
      assert forall i :: 0 <= i < |generation| ==> generation[i] in generation;
      next, f0, rounds := Evolve(minValue, maxValue, next);
      values := bestDescendant.GetLimitedValues();
      if minValue < maxValue {
        DecodeInBox(bestDescendant.Codes(), minValue, maxValue);
      }
    }

    /** The `while counter < MAX_COUNTS` loop of `find_extremum`. It ends
        because the champion's fitness only ever drops to another of the
        finitely many fitnesses a chromosome can have, and otherwise the
        counter climbs to MAX_COUNTS. */
    method Evolve(minValue: real, maxValue: real, rng: Rng)
      returns (next: Rng, ghost f0: real, ghost rounds: seq<real>)
      requires argsNumber >= 1 && |generation| == POPULATION && Population(generation, minValue, maxValue)
      requires forall c <- generation :: c.fitness.Some? && Scored(c)
      requires bestDescendant != null && Member(bestDescendant, minValue, maxValue) && Scored(bestDescendant)
      modifies this, generation
      ensures next.stream == rng.stream
      ensures f0 == old(bestDescendant.fitness.value) && history == old(history) + rounds
      ensures bestDescendant != null && Member(bestDescendant, minValue, maxValue) && Scored(bestDescendant)
      ensures rounds != [] && Track(f0, rounds) == Progress(bestDescendant.fitness.value, MAX_COUNTS)
      ensures |generation| == POPULATION && Population(generation, minValue, maxValue)
      ensures forall c <- generation :: c.fitness.Some? && Scored(c) && bestDescendant.fitness.value <= c.fitness.value
    {
      next := rng;
      var counter: nat := 0;
      f0, rounds := bestDescendant.fitness.value, [];
      assert history == old(history) + rounds;
      ghost var scores := Attainable(minValue, maxValue);
      FitnessAttainable(bestDescendant.Codes(), minValue, maxValue);
      while counter < MAX_COUNTS
        invariant next.stream == rng.stream && history == old(history) + rounds
        invariant |generation| == POPULATION && Population(generation, minValue, maxValue)
        invariant forall c <- generation :: (fresh(c) || c in old(generation)) && c.fitness.Some? && Scored(c)
        invariant bestDescendant != null && Member(bestDescendant, minValue, maxValue) && Scored(bestDescendant)
        invariant bestDescendant.fitness.value in scores
        invariant counter <= MAX_COUNTS && Track(f0, rounds) == Progress(bestDescendant.fitness.value, counter)
        invariant rounds != [] ==> forall c <- generation :: bestDescendant.fitness.value <= c.fitness.value
        decreases |Below(scores, bestDescendant.fitness.value)|, MAX_COUNTS - counter
      {
        ghost var roundBest;
        assert forall i :: 0 <= i < |generation| ==> generation[i] in generation;
        counter, next, roundBest := Advance(minValue, maxValue, counter, next, f0, rounds);
        assert (old(history) + rounds) + [roundBest] == old(history) + (rounds + [roundBest]);
        rounds := rounds + [roundBest];
      }
    }

    /** One pass of `Evolve`'s loop: a `Round`, with the trace of round
        bests extended and the termination measure accounted for. */
    method Advance(minValue: real, maxValue: real, counter: nat, rng: Rng, ghost f0: real, ghost rounds: seq<real>)
      returns (counter': nat, next: Rng, ghost roundBest: real)
      requires argsNumber >= 1 && |generation| == POPULATION && Population(generation, minValue, maxValue)
      requires forall c <- generation :: c.fitness.Some? && Scored(c)
      requires bestDescendant != null && Member(bestDescendant, minValue, maxValue) && Scored(bestDescendant)
      requires Track(f0, rounds) == Progress(bestDescendant.fitness.value, counter)
      modifies this, generation
      ensures next.stream == rng.stream && history == old(history) + [roundBest]
      ensures |generation| == POPULATION && Population(generation, minValue, maxValue)
      ensures forall c <- generation :: (fresh(c) || c in old(generation)) && c.fitness.Some? && Scored(c)
      ensures bestDescendant != null && Member(bestDescendant, minValue, maxValue) && Scored(bestDescendant)
      ensures bestDescendant.fitness.value in Attainable(minValue, maxValue)
      ensures Track(f0, rounds + [roundBest]) == Progress(bestDescendant.fitness.value, counter')
      ensures var scores := Attainable(minValue, maxValue);
        counter' == 0 ==> |Below(scores, bestDescendant.fitness.value)| < |Below(scores, old(bestDescendant.fitness.value))|
      ensures forall c <- generation :: bestDescendant.fitness.value <= c.fitness.value
    {
      ghost var best := bestDescendant.fitness.value;
      counter', next, roundBest := Round(minValue, maxValue, counter, rng);
      TrackAppend(f0, rounds, roundBest);
      FitnessAttainable(bestDescendant.Codes(), minValue, maxValue);
      if counter' == 0 {
        BelowShrinks(Attainable(minValue, maxValue), best, bestDescendant.fitness.value);
      }
    }

    /** `sorted(new_generation, key=fitness)[0]`: the first chromosome of
        least fitness. */
    function FittestOf(gen: seq<Chromosome>): (best: Chromosome)
      reads gen
      requires gen != [] && forall c <- gen :: c.fitness.Some?
      ensures best in gen
      ensures forall c <- gen :: best.fitness.value <= c.fitness.value
      ensures exists i :: 0 <= i < |gen| && gen[i] == best && FirstOfLeast(gen, i)
    {
      assert forall i :: 0 <= i < |gen| ==> gen[i] in gen;
      var keys := Keys(gen);
      RankFirst(keys);
      var b := Rank(keys)[0];
      assert forall j :: 0 <= j < b ==> keys[b] < keys[j];
      gen[b]
    }
  }
}
