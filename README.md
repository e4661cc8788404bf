# genetic-lab: the genome and the search loop of `ga_core.py`, in Dafny

genetic-lab searches a box `[min_value, max_value)` for the arguments at which
a user function comes closest to a known optimum. It does so with a genetic
algorithm whose genome is made of bits. This project models the three classes
of `ga_core.py` in the form the source gives them. Each comes with the
properties its code promises.

- **Gene** (`gene.dfy`, module `Genes`) is a class holding a 16-bit code.
  - The checked setter accepts exactly the codes in `[0, 2^16 - 1]`.
  - `combine` splices two codes in place with masks. The masks are proved to
    compute the splice law: the top `p` bits come from self and the low
    `16 - p` bits from the other gene. Bit position `0` copies the other
    gene. Positions outside `[0, 16)` change nothing.
  - `__str__` peels the bits off from the top. The rendering is proved to
    round-trip with reading a binary string.
- **Chromosome** (`chromosome.dfy`, module `Chromosomes`) is a class holding
  a fixed list of genes, the box they decode into, and a fitness.
  - The constructor fills the genes at random when no list is given.
  - `get_limited_values` decodes each code linearly into the box.
  - `combine` walks the genes with a cursor over the sorted crossover points.
    The inner loop's donor swapping and cursor progress are proved against
    `Child` (`crossover.dfy`, module `Crossover`). A bit of the child comes
    from the other parent exactly when an odd number of points lie at or
    before it, whatever order the points came in, for points at
    non-negative offsets. The crossover returns
    fresh genes and leaves both parents as they were. Its two `ValueError`s
    are results of the error type `CombineError`.
  - `__str__` joins the gene renderings with dots. Different code lists
    render differently.
- **GACore** (`engine.dfy`, module `Engine`) is a class holding the current
  generation and the best chromosome found so far.
  - `find_extremum` runs generation after generation. Each round does
    tournament selection (the fitter of two random applicants), two-point
    crossover of random parents, elitism (the first 25 in stable fitness
    order) and the `_mutate` step, then scores the new generation.
  - The stopping rule lives in `stagnation.dfy` (module `Stagnation`). The
    best fitness never increases. The counter resets exactly on a strict
    improvement and otherwise counts up. The loop stops when the counter
    reaches 25. A ghost field `history` records the least fitness of every
    generation bred, so the stopping rule is stated about the rounds the
    loop actually ran.
  - The loop is proved to terminate: the champion's fitness only ever drops
    to another of the finitely many values a chromosome of `args_number`
    16-bit genes can score.
  - Python's stable `sorted(..., key=fitness)` is modelled in `ranking.dfy`
    (module `Ranking`), by the index order it produces.

Randomness (`randomness.dfy`) is a value of type `Rng`. It pairs an
arbitrary stream of naturals with the number of draws already consumed. Each
`randint`, `random` or `choice` consumes the next draw and returns the
advanced generator. Every property below therefore holds for every sequence
of draws. The user's function `func` is an arbitrary total function from the
decoded arguments to a real number. Python's `&` on non-negative integers is
the recursive `Arith.And` (`arith.dfy`).

`_mutate` is modelled as written: it stores the mutant into the current
generation (`ga_core.py:191`), not into the new generation it is given. The
next line of the loop (`ga_core.py:145`) replaces the current generation. So
in this code a mutant never reaches the next generation. `Mutate` states this:
it may change only the engine's own fields, never the chromosomes of the new
generation, and `NextGeneration` keeps that generation's elite exactly as
`_best_parents` chose it. The model follows the code.

## Model

| member | source | states |
|---|---|---|
| Genes.MaxValueIs | ga_core.py:7-9 | MAX_VALUE is 2^BIT_LEN - 1 = 65535 |
| Genes.Gene.constructor | ga_core.py:11-12 | a gene built from an in-range number holds exactly that number |
| Genes.Gene.Create | ga_core.py:11-22 | `Gene(number)` succeeds exactly when 0 <= number <= 65535, with that code; otherwise it is the ValueError |
| Genes.Gene.SetCode | ga_core.py:18-22 | the setter fails exactly outside [0, 65535] and then leaves the code unchanged; otherwise it stores the number unchanged |
| Genes.Gene.Combine | ga_core.py:24-31 | the new code is the splice of the old codes at bit_pos; the setter never rejects the masked sum |
| Arith.AndLowMask | ga_core.py:27-28 | Python's `x & (2^k - 1)` on a non-negative x keeps exactly the low k bits, x mod 2^k |
| Arith.AndHighMask | ga_core.py:29-30 | Python's `x & (2^n - 2^k)` keeps bits k to n-1: x mod 2^n minus x mod 2^k |
| Genes.MasksSplice | ga_core.py:26-31 | `(self & (MAX_VALUE - other_mask)) + (other & other_mask)` with `other_mask = 2^(16-p) - 1` equals the splice of the two codes at p |
| Genes.GraftIs | ga_core.py:27-31 | the splice keeps the quotient of self by 2^(16-p) and takes the remainder of other |
| Genes.SplicedBits | ga_core.py:24-31 | for 0 <= p < 16 the result renders as self's first p digits followed by other's last 16 - p, and stays a valid code |
| Genes.SplicedEnds | ga_core.py:24-31 | p = 0 yields other's code; p outside [0, 16) leaves self's code; the result is always in [0, 65535] |
| Genes.SplicedParts | ga_core.py:24-31 | the splice at p agrees with self above bit 16 - p and with other below it, as numbers |
| Genes.Gene.Clone | ga_core.py:33-34 | the clone is a new gene with the same code, so changing it never touches the original |
| Genes.Gene.ToString | ga_core.py:36-47 | the loop that tests `rest // rated_value` and halves the place value returns the 16-digit binary rendering of the code, most significant bit first |
| Genes.PeelStep | ga_core.py:41-46 | one round of `__str__`: the quotient by the place value is the next bit, and subtracting it leaves the lower bits |
| Genes.Digits | ga_core.py:36-47 | the rendering of the low n bits has n characters, each '0' or '1' |
| Genes.BinaryRoundTrip | ga_core.py:36-47 | reading the rendering of a code gives back the code, and every 16-digit binary string is the rendering of its value |
| Genes.DigitsSplit | ga_core.py:36-47 | the rendering is the rendering of the high bits followed by that of the low bits |
| Chromosomes.ScaleBounds | ga_core.py:68-75 | a code decodes into [lo, hi], strictly below hi on a non-empty box; code 0 decodes exactly to lo |
| Chromosomes.ScaleMonotone | ga_core.py:72-73 | on a non-empty box, decoding is strictly increasing in the code |
| Chromosomes.ScaleInverse | ga_core.py:72-73 | on a non-empty box, the code is recovered from its decoded value |
| Chromosomes.DecodeInBox | ga_core.py:68-75 | every decoded value of a chromosome lies in [min_limit, max_limit) when the box is not empty |
| Chromosomes.Chromosome.GetLimitedValues | ga_core.py:68-75 | one value per gene, in gene order, each the linear decoding of that gene's code |
| Chromosomes.Chromosome.constructor | ga_core.py:52-60 | the chromosome stores its gene count, limits and gene list, with no fitness |
| Chromosomes.Chromosome.FillRandomly | ga_core.py:62-66 | n fresh genes whose codes are the next n `randint(0, 65535)` draws, in order |
| Chromosomes.Chromosome.Create | ga_core.py:52-60 | a given non-empty gene list is kept as is; an empty one is replaced by genes_number random genes; the fitness is None |
| Chromosomes.Chromosome.Combine | ga_core.py:77-102 | empty dots is the first ValueError, different gene counts the second, and nothing else fails; otherwise a new chromosome with self's gene count and limits, no fitness, fresh genes whose codes are `Child` of the two parents at the sorted dots; neither parent changes |
| Chromosomes.Chromosome.PlaceGene | ga_core.py:89-99 | one pass of the outer loop: gene idx of the child is a new gene whose code is `ChildGene` of the parents at the sorted dots, and the cursor and the donors move on to the state the next gene starts from |
| Chromosomes.Chromosome.SpliceIn | ga_core.py:92-99 | the inner loop stops exactly at the first dot beyond gene idx, splices each dot of the gene into the placed gene in turn, and leaves the donors swapped exactly when it consumed an odd number of dots |
| Chromosomes.Chromosome.ToString | ga_core.py:104-105 | the rendering is the gene renderings joined with '.' |
| Chromosomes.RenderedLayout | ga_core.py:104-105 | gene i occupies characters [17 i, 17 i + 16) and a dot follows every gene but the last |
| Chromosomes.RenderedInjective | ga_core.py:104-105 | two chromosomes with the same rendering have the same codes |
| Crossover.SortSorted | ga_core.py:83 | `sorted(dots)` is ascending and a permutation of dots |
| Crossover.InsertSorted | ga_core.py:83 | inserting into an ascending list keeps it ascending and adds exactly that element |
| Crossover.SortPair | ga_core.py:171-173 | two points already in order are their own sort |
| Crossover.ConsumedStops | ga_core.py:92-95 | after gene idx the cursor has passed exactly the dots that fall in genes up to idx, and the next dot lies beyond it |
| Crossover.CursorStep | ga_core.py:96-99 | advancing the cursor by one dot splices at `dot % 16` and swaps the donors |
| Crossover.ChildInRange | ga_core.py:89-99 | every gene of a child of valid parents is a valid code |
| Crossover.SingleDot | ga_core.py:83-99 | with one dot d, genes before d // 16 are self's, gene d // 16 is self's spliced with other's at d % 16, and genes after it are other's |
| Crossover.SpliceRunBits | ga_core.py:92-99 | bit q after a chain of in-gene splices at ascending positions comes from the donor that the number of positions at or before q selects |
| Crossover.CountAtGene | ga_core.py:89-99 | for sorted points, the count up to global bit 16 i + q is the cursor position at gene i plus the count of in-gene positions up to q |
| Crossover.CountAtMostPermutation | ga_core.py:83 | the number of points at or before a bit does not depend on their order |
| Crossover.ChildBitsSorted | ga_core.py:89-99 | for ascending points, bit q of child gene i comes from other exactly when an odd number of points lie at or before bit 16 i + q |
| Crossover.ChildBits | ga_core.py:83-99 | the same law for points in any order: the donor switches once per dot |
| Crossover.GeneRun | ga_core.py:92-96 | the dots the cursor consumes at gene idx are exactly the dots of that gene, at ascending in-gene positions |
| Randomness.Between | ga_core.py:128 | the value `randint(lo, hi)` makes of a draw lies in [lo, hi] |
| Randomness.Pick | ga_core.py:166 | the index `choice` makes of a draw lies inside the sequence |
| Randomness.Fraction | ga_core.py:187 | the value `random()` makes of a draw lies in [0, 1) |
| Randomness.Rng.RandInt | ga_core.py:171-172 | `randint(lo, hi)` returns a value in [lo, hi] from the next draw and consumes exactly one draw |
| Randomness.Rng.Random | ga_core.py:187 | `random()` returns a value in [0, 1) from the next draw and consumes exactly one draw |
| Randomness.Rng.Choice | ga_core.py:178-179 | `choice(s)` returns an element of s from the next draw and consumes exactly one draw |
| Engine.GACore.constructor | ga_core.py:119-124 | a new engine holds the function, the argument count and the optimum, an empty generation and no champion |
| Engine.GACore.Fitness | ga_core.py:155-157 | the fitness is never negative, and it is zero exactly when the function reaches the optimum at the decoded point |
| Engine.GACore.FitnessAttainable | ga_core.py:155-157 | every fitness a chromosome of args_number genes can have is one of finitely many values |
| Engine.GACore.CreateNewGeneration | ga_core.py:150-153 | the generation becomes POPULATION fresh unscored chromosomes for the box, chromosome i built from the draws after those of the chromosomes before it; the champion is untouched |
| Engine.GACore.CountAndSetFitness | ga_core.py:155-157 | the stored fitness is `abs(global_optimum - func(get_limited_values()))` |
| Engine.GACore.CountAndSetPopulationFitness | ga_core.py:159-161 | every chromosome of the list carries its fitness afterwards |
| Engine.Tournament | ga_core.py:166-167 | the winner is one of the two applicants, no less fit than either, and the first on a tie |
| Engine.GACore.TournamentSelect | ga_core.py:163-168 | POPULATION winners, each a member of the generation and the tournament winner of the two applicants drawn for it |
| Engine.CutPoints | ga_core.py:171-172 | the two points satisfy 1 <= point1 <= point2 <= 16 n - 1 |
| Engine.TwoPointCrossover | ga_core.py:173 | bit q of child gene i comes from the second parent exactly when its offset 16 i + q lies in [point1, point2) |
| Engine.CrossedBits | ga_core.py:170-173 | the child of `_combine_randomly(chrm1, chrm2)` takes chrm1's bits between the two points and chrm2's elsewhere, and all its genes are valid codes |
| Engine.GACore.CombineRandomly | ga_core.py:170-173 | the child is new, unscored, with chrm2's gene count and limits, and its codes are the crossing of the parents at the two drawn points; two draws are consumed |
| Engine.GACore.CrossOver | ga_core.py:175-181 | POPULATION - BEST_PARENTS new unscored children, child i bred from the father, mother and two points drawn in its own four draws |
| Engine.GACore.BreedOne | ga_core.py:178-180 | one child of a father and a mother drawn with `choice`, crossed at two drawn points |
| Engine.GACore.BreedNext | ga_core.py:177-180 | one pass of the loop appends exactly one new child and keeps the children bred before it |
| Engine.GACore.BreedingGrows | ga_core.py:177-180 | appending the child of the next four draws keeps the invariant of `_cross_over`'s loop |
| Engine.GACore.BestParents | ga_core.py:183-184 | BEST_PARENTS members of the generation |
| Engine.GACore.BestParentsAreFittest | ga_core.py:183-184 | the elite is taken from BEST_PARENTS distinct positions of the generation, members of equal fitness in generation order; it is in ascending fitness order, and every chromosome left out is no fitter than any elite |
| Ranking.RankIsStableSort | ga_core.py:184 | `sorted(key=fitness)` lists every index once, in ascending key order, equal keys in their original order |
| Ranking.RankFirst | ga_core.py:139 | `sorted(...)[0]` holds the least fitness, and is the first position holding it |
| Ranking.RankElite | ga_core.py:184 | every index outside the sorted prefix has a key no smaller than any index inside it |
| Engine.GACore.Mutate | ga_core.py:186-191 | without mutation the generation is unchanged; with it, exactly the drawn index of the current generation is replaced by a new mutant of the chromosome there, and the new generation passed in is not touched |
| Engine.GACore.Mutant | ga_core.py:189-190 | the mutant is the crossing of the chromosome with a fresh random mutagen at two drawn points |
| Engine.GACore.Offspring | ga_core.py:134-136 | POPULATION chromosomes for the box: the new children first, then the elite of the current generation |
| Engine.GACore.NextGeneration | ga_core.py:134-138 | a scored generation of POPULATION chromosomes for the box whose last BEST_PARENTS are exactly the elite chosen before `_mutate` ran; the champion is unchanged |
| Engine.GACore.FittestOf | ga_core.py:139 | the chromosome chosen is in the generation, no other is fitter, and every member before it is strictly less fit: it is the first of least fitness, as `sorted(...)[0]` picks |
| Engine.GACore.Round | ga_core.py:133-145 | one pass of the loop: the round's best is the fitness of `FittestOf` the new generation and is appended to the history; the champion becomes that first fittest member exactly when it is strictly fitter and stays otherwise; the counter resets exactly then and otherwise counts up; afterwards the champion is no less fit than any member of the generation |
| Engine.GACore.Promote | ga_core.py:139-145 | `FittestOf` the new generation becomes the champion exactly when strictly fitter than the old one, the counter resets exactly then and counts up otherwise, the round's best is appended to the history, the new generation becomes the current one, and the champion is no less fit than any of its members |
| Engine.GACore.Start | ga_core.py:127-129 | a fresh scored first generation whose member i has the codes of the i-th block of `args_number` draws, and a first champion that is the member at the drawn index; the history is untouched |
| Engine.GACore.FindExtremum | ga_core.py:126-147 | the search ends; `f0` is the fitness of the first champion drawn, `rounds` is exactly what the run appended to the history, and tracing the rounds from `f0` ends with a last run of exactly MAX_COUNTS rounds without a strict improvement at the champion's fitness; the result is the champion's decoded arguments, inside the box when it is not empty; the champion is no less fit than every member of the final generation |
| Engine.GACore.Evolve | ga_core.py:133-145 | the loop ends; `f0` is the champion's fitness on entry and `rounds` exactly the round bests appended to the history, and tracing them from `f0` ends with a last run of exactly MAX_COUNTS rounds without a strict improvement; it leaves a scored generation of POPULATION members for the box and a champion no less fit than any of them |
| Engine.GACore.Advance | ga_core.py:133-145 | one pass of the loop extends the traced rounds by the round's best, keeps the champion attainable, and a reset of the counter leaves fewer attainable fitnesses below the champion |
| Engine.BelowShrinks | ga_core.py:140-142 | a strict improvement to an attainable fitness leaves fewer attainable values below the champion, so the loop ends |
| Stagnation.TrackStep | ga_core.py:140-144 | after a round the counter is 0 exactly when the round's best is strictly smaller; otherwise it is one more and the best is unchanged; the best never increases |
| Stagnation.TrackIsMinimum | ga_core.py:133-145 | the best so far is the least of the first champion's fitness and every round's best, and is one of them |
| Stagnation.TrackNonIncreasing | ga_core.py:133-145 | the best fitness never increases from one round to any later one |
| Stagnation.TrackCounter | ga_core.py:130-145 | the counter is the number of rounds since the last strict improvement: the best was reached that many rounds ago, by a round strictly below the best before it |

## Left out

- Floating point: `get_limited_values`, the fitness `abs(global_optimum - func(...))` and the mutation test `random() < 0.05` are computed in exact real arithmetic. Rounding is not modelled.
- The random module: a draw is any natural number. `randint(lo, hi)` is `lo + d % (hi - lo + 1)`, `choice(s)` is `s[d % len(s)]` and `random()` is `(d % 2^53) / 2^53`. The distribution of the draws and the Mersenne Twister itself are not modelled.
- The user function `func` is a total function of the decoded arguments. A function that raises or does not return is not modelled.
- Engine.GACore.FindExtremum: requires args_number >= 1. With no genes, `randint(1, -2)` in `_combine_randomly` raises ValueError; that error path is not modelled.
- Engine.GACore.Mutate: requires a generation of POPULATION chromosomes of args_number genes, as `find_extremum` always has; on a shorter list the index would raise IndexError.
- Engine.GACore.CombineRandomly: requires parents with equal gene counts and at least one gene, as all its callers guarantee; the ValueErrors of `Chromosome.combine` for other inputs are modelled in `Chromosomes.Chromosome.Combine`.
- Engine.GACore.TournamentSelect: requires a non-empty, scored generation; `random.choice` on an empty list raises IndexError, and an unscored chromosome (fitness None) makes `min` raise TypeError.
- Engine.GACore.BestParents: requires at least BEST_PARENTS scored chromosomes, as the generation always holds; Python would return a shorter list for a shorter generation.
- Engine.GACore.Offspring: states the elite but not the children's codes, which `Engine.GACore.CrossOver` states.
- Engine.GACore.NextGeneration: states the elite but not the children's codes, which `Engine.GACore.CrossOver` states.
- Engine.GACore.Round: states the champion update and the counter but not the codes of the new generation, which `Engine.GACore.CrossOver` states.
- Crossover.ChildBits: states the bit-level parity law only for points >= 0. A negative point (possible in `combine`, never in `_combine_randomly`) falls into gene `point // 16` at bit `point % 16` as in Python, and `Chromosomes.Chromosome.Combine` models that through `Child`, but no bit law is proved for it.
- The genes a chromosome holds are a constant field, because nothing in the source replaces or reorders a chromosome's gene list once built; the codes of those genes can change.
- `get_limited_values` returns a tuple in Python; the model returns a sequence.
- `Chromosome(n, lo, hi, genes)` fills at random when `genes` is None or an empty list; both are the empty sequence here.
- The `code` property getter is a read of the field `code`.
- functions.py (benchmark objectives) and lab_test.py (a printing harness) are not part of this model.
