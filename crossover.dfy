/** What `Chromosome.combine` computes, stated on gene codes: the sorted
    crossover points, the cursor over them, the per-gene chain of splices,
    and the multi-point crossover law the chain obeys. */
module Crossover {
  import opened Arith
  import opened Genes

  predicate SortedAsc(s: seq<int>)
  {
    forall i, j :: 0 <= i < j < |s| ==> s[i] <= s[j]
  }

  /** Inserts `x` before the first element not below it. */
  function Insert(x: int, s: seq<int>): (r: seq<int>)
  {
    if s == [] || x <= s[0] then [x] + s else [s[0]] + Insert(x, s[1..])
  }

  /** Python's `sorted(dots)`, as an insertion sort. */
  function Sort(s: seq<int>): (r: seq<int>)
  {
    if s == [] then [] else Insert(s[0], Sort(s[1..]))
  }

  /** Two dots already in order are their own sort. */
  lemma SortPair(x: int, y: int)
    requires x <= y
    ensures Sort([x, y]) == [x, y]
  {
    assert [x, y][1..] == [y];
    assert [y][1..] == [];
    assert Sort([y]) == Insert(y, []) == [y];
  }

  lemma {:induction false} InsertSorted(x: int, s: seq<int>)
    requires SortedAsc(s)
    ensures var r := Insert(x, s);
      && r != [] && r[0] == (if s == [] || x <= s[0] then x else s[0])
      && SortedAsc(r) && multiset(r) == multiset(s) + multiset{x}
  {
    if s == [] || x <= s[0] {
      ConsSorted(x, s);
    } else {
      assert s == [s[0]] + s[1..];
      var tail := Insert(x, s[1..]);
      InsertSorted(x, s[1..]);
      assert s[1..] != [] ==> s[0] <= s[1];
      ConsSorted(s[0], tail);
      assert Insert(x, s) == [s[0]] + tail;
    }
  }

  /** A head no larger than the first element keeps a sorted tail sorted. */
  lemma ConsSorted(h: int, tail: seq<int>)
    requires SortedAsc(tail)
    requires tail != [] ==> h <= tail[0]
    ensures SortedAsc([h] + tail)
  {
    var r := [h] + tail;
    forall i, j | 0 <= i < j < |r|
      ensures r[i] <= r[j]
    {
      if i == 0 && j > 1 {
        assert tail[0] <= tail[j - 1];
      }
    }
  }

  /** `sorted` returns the ascending permutation of its input. */
  lemma {:induction false} SortSorted(s: seq<int>)
    ensures SortedAsc(Sort(s)) && multiset(Sort(s)) == multiset(s)
  {
    if s != [] {
      assert s == [s[0]] + s[1..];
      SortSorted(s[1..]);
      InsertSorted(s[0], Sort(s[1..]));
    }
  }

  /** How far the `dot_idx` cursor has run once gene `idx` is done: the
      longest prefix of `dots` whose points fall in genes up to `idx`. */
  function Consumed(dots: seq<int>, idx: int): (n: nat)
    ensures n <= |dots|
  {
    if dots == [] || dots[0] / BIT_LEN > idx then 0 else 1 + Consumed(dots[1..], idx)
  }

  /** The cursor stops exactly at the first point beyond gene `idx`. */
  lemma {:induction false} ConsumedStops(dots: seq<int>, idx: int)
    ensures var n := Consumed(dots, idx);
      && (forall k :: 0 <= k < n ==> dots[k] / BIT_LEN <= idx)
      && (n < |dots| ==> dots[n] / BIT_LEN > idx)
  {
    if dots != [] && dots[0] / BIT_LEN <= idx {
      ConsumedStops(dots[1..], idx);
    }
  }

  lemma {:induction false} ConsumedMono(dots: seq<int>, i: int, j: int)
    requires i <= j
    ensures Consumed(dots, i) <= Consumed(dots, j)
  {
    if dots != [] && dots[0] / BIT_LEN <= i {
      ConsumedMono(dots[1..], i, j);
    }
  }

  /** The cursor when gene `idx` starts. */
  function Before(dots: seq<int>, idx: nat): (n: nat)
    ensures n <= Consumed(dots, idx)
  {
    if idx == 0 then 0 else ConsumedMono(dots, idx - 1, idx); Consumed(dots, idx - 1)
  }

  /** The in-gene bit positions `dot % 16` of a run of points. */
  function Positions(ds: seq<int>): (ps: seq<int>)
    ensures |ps| == |ds|
    ensures forall k :: 0 <= k < |ds| ==> ps[k] == ds[k] % BIT_LEN
  {
    seq(|ds|, k requires 0 <= k < |ds| => ds[k] % BIT_LEN)
  }

  /** The chain of splices applied to a placed gene `g`: each point splices
      in the other donor's gene, and the donors then trade places. */
  function SpliceRun(g: int, cur: int, nxt: int, ps: seq<int>): int
    decreases |ps|
  {
    if ps == [] then g else SpliceRun(Spliced(g, nxt, ps[0]), nxt, cur, ps[1..])
  }

  /** Advancing the cursor by one point performs that point's splice and
      swaps the donors. */
  lemma CursorStep(dots: seq<int>, from: nat, to: nat, g: int, cur: int, nxt: int)
    requires from < to <= |dots|
    ensures SpliceRun(g, cur, nxt, Positions(dots[from..to]))
      == SpliceRun(Spliced(g, nxt, dots[from] % BIT_LEN), nxt, cur, Positions(dots[from + 1..to]))
  {
    assert Positions(dots[from..to])[1..] == Positions(dots[from + 1..to]);
  }

  /** Gene `idx` of the child of `a` (self) and `b` (other) for sorted
      points `dots`: the current donor is `a` after an even number of
      points, and the points that fall in this gene are spliced in turn. */
  function ChildGene(a: seq<int>, b: seq<int>, dots: seq<int>, idx: nat): int
    requires |a| == |b| && idx < |a|
  {
    var k0, k1 := Before(dots, idx), Consumed(dots, idx);
    var ps := Positions(dots[k0..k1]);
    if k0 % 2 == 0 then SpliceRun(a[idx], a[idx], b[idx], ps) else SpliceRun(b[idx], b[idx], a[idx], ps)
  }

  function Child(a: seq<int>, b: seq<int>, dots: seq<int>): (c: seq<int>)
    requires |a| == |b|
    ensures |c| == |a|
    ensures forall i :: 0 <= i < |a| ==> c[i] == ChildGene(a, b, dots, i)
  {
    seq(|a|, i requires 0 <= i < |a| => ChildGene(a, b, dots, i))
  }

  lemma {:induction false} SpliceRunInRange(g: int, cur: int, nxt: int, ps: seq<int>)
    requires InRange(g) && InRange(cur) && InRange(nxt)
    ensures InRange(SpliceRun(g, cur, nxt, ps))
    decreases |ps|
  {
    if ps != [] {
      SplicedEnds(g, nxt, ps[0]);
      SpliceRunInRange(Spliced(g, nxt, ps[0]), nxt, cur, ps[1..]);
    }
  }

  /** Every gene of a child of valid parents is a valid code. */
  lemma ChildInRange(a: seq<int>, b: seq<int>, dots: seq<int>)
    requires |a| == |b| && AllInRange(a) && AllInRange(b)
    ensures AllInRange(Child(a, b, dots))
  {
    forall i | 0 <= i < |a|
      ensures InRange(Child(a, b, dots)[i])
    {
      var k0, k1 := Before(dots, i), Consumed(dots, i);
      var ps := Positions(dots[k0..k1]);
      SpliceRunInRange(a[i], a[i], b[i], ps);
      SpliceRunInRange(b[i], b[i], a[i], ps);
    }
  }

  /** One-point crossover at bit `d`: genes before gene `d / 16` come from
      `a`, that gene is `a`'s spliced with `b`'s at bit `d % 16`, and the
      genes after it come from `b`. */
  lemma SingleDot(a: seq<int>, b: seq<int>, d: int, i: nat)
    requires |a| == |b| && i < |a| && 0 <= d
    ensures i < d / BIT_LEN ==> Child(a, b, [d])[i] == a[i]
    ensures i == d / BIT_LEN ==> Child(a, b, [d])[i] == Spliced(a[i], b[i], d % BIT_LEN)
    ensures i > d / BIT_LEN ==> Child(a, b, [d])[i] == b[i]
  {
    var dots := [d];
    var k0, k1 := Before(dots, i), Consumed(dots, i);
    if i < d / BIT_LEN {
      assert k0 == 0 && k1 == 0;
    } else if i == d / BIT_LEN {
      assert k0 == 0 && k1 == 1;
      assert dots[k0..k1] == dots;
      assert Positions(dots) == [d % BIT_LEN];
      assert SpliceRun(a[i], a[i], b[i], [d % BIT_LEN]) == SpliceRun(Spliced(a[i], b[i], d % BIT_LEN), b[i], a[i], []);
    } else {
      assert k0 == 1 && k1 == 1;
    }
  }

  /** Number of points at or before bit `j`. */
  function CountAtMost(s: seq<int>, j: int): nat
  {
    if s == [] then 0 else (if s[0] <= j then 1 else 0) + CountAtMost(s[1..], j)
  }

  lemma {:induction false} CountAtMostAppend(s: seq<int>, t: seq<int>, j: int)
    ensures CountAtMost(s + t, j) == CountAtMost(s, j) + CountAtMost(t, j)
  {
    if s == [] {
      assert s + t == t;
    } else {
      assert (s + t)[0] == s[0];
      assert (s + t)[1..] == s[1..] + t;
      CountAtMostAppend(s[1..], t, j);
    }
  }

  /** The count depends only on which points there are, not their order. */
  lemma {:induction false} CountAtMostPermutation(s: seq<int>, t: seq<int>, j: int)
    requires multiset(s) == multiset(t)
    ensures CountAtMost(s, j) == CountAtMost(t, j)
  {
    if s == [] {
      assert |t| == |multiset(t)| == 0;
    } else {
      assert s[0] in multiset(t);
      var m :| 0 <= m < |t| && t[m] == s[0];
      var rest := t[..m] + t[m + 1..];
      RemoveMatch(s, t, m);
      CountAtMostPermutation(s[1..], rest, j);
      CountAtMostRemove(t, m, j);
    }
  }

  /** Taking the same point out of two permutations leaves permutations. */
  lemma RemoveMatch(s: seq<int>, t: seq<int>, m: nat)
    requires multiset(s) == multiset(t)
    requires s != [] && m < |t| && t[m] == s[0]
    ensures multiset(t[..m] + t[m + 1..]) == multiset(s[1..])
  {
    var x := s[0];
    assert t == t[..m] + [x] + t[m + 1..];
    assert s == [x] + s[1..];
    calc {
      multiset(t[..m] + t[m + 1..]);
      multiset(t[..m]) + multiset(t[m + 1..]);
      multiset(t[..m] + [x] + t[m + 1..]) - multiset{x};
      multiset(t) - multiset{x};
      multiset([x] + s[1..]) - multiset{x};
      multiset(s[1..]);
    }
  }

  /** Taking point `m` out lowers the count by one exactly when it is at
      or before `j`. */
  lemma CountAtMostRemove(t: seq<int>, m: nat, j: int)
    requires m < |t|
    ensures CountAtMost(t, j) == (if t[m] <= j then 1 else 0) + CountAtMost(t[..m] + t[m + 1..], j)
  {
    assert t == t[..m] + [t[m]] + t[m + 1..];
    CountAtMostAppend(t[..m] + [t[m]], t[m + 1..], j);
    CountAtMostAppend(t[..m], [t[m]], j);
    CountAtMostAppend(t[..m], t[m + 1..], j);
    assert [t[m]][1..] == [];
  }

  lemma {:induction false} CountAtMostNone(s: seq<int>, j: int)
    requires forall k :: 0 <= k < |s| ==> s[k] > j
    ensures CountAtMost(s, j) == 0
  {
    if s != [] {
      CountAtMostNone(s[1..], j);
    }
  }

  lemma {:induction false} CountAtMostAll(s: seq<int>, j: int)
    requires forall k :: 0 <= k < |s| ==> s[k] <= j
    ensures CountAtMost(s, j) == |s|
  {
    if s != [] {
      CountAtMostAll(s[1..], j);
    }
  }

  /** Points that all fall in gene `i` are counted up to bit `16 i + q`
      exactly when their in-gene position is at most `q`. */
  lemma {:induction false} CountInGene(ds: seq<int>, i: int, q: int)
    requires forall k :: 0 <= k < |ds| ==> ds[k] / BIT_LEN == i
    ensures CountAtMost(Positions(ds), q) == CountAtMost(ds, i * BIT_LEN + q)
  {
    if ds != [] {
      assert Positions(ds)[1..] == Positions(ds[1..]);
      CountInGene(ds[1..], i, q);
    }
  }

  /** One splice, one bit: positions before `p` keep `g`'s bit, the others
      take `nxt`'s. */
  lemma SplicedBit(g: int, nxt: int, p: nat, q: nat)
    requires InRange(g) && InRange(nxt) && p < BIT_LEN && q < BIT_LEN
    ensures InRange(Spliced(g, nxt, p))
    ensures Binary(Spliced(g, nxt, p))[q] == if q < p then Binary(g)[q] else Binary(nxt)[q]
  {
    SplicedBits(g, nxt, p);
  }

  /** The gene whose bit a chain of splices leaves at a position that `c`
      points reach: the placed gene when none does, then the donors in
      turn. */
  function Donor(g: int, cur: int, nxt: int, c: nat): int
  {
    if c == 0 then g else if c % 2 == 1 then nxt else cur
  }

  lemma DonorStep(g: int, cur: int, nxt: int, p: nat, c: nat, q: nat)
    requires InRange(g) && InRange(cur) && InRange(nxt) && p < BIT_LEN && q < BIT_LEN
    requires q < p ==> c == 0
    ensures InRange(Donor(Spliced(g, nxt, p), nxt, cur, c))
    ensures Binary(Donor(Spliced(g, nxt, p), nxt, cur, c))[q]
      == Binary(Donor(g, cur, nxt, (if p <= q then 1 else 0) + c))[q]
  {
    SplicedBit(g, nxt, p, q);
  }

  /** Bit `q` after a chain of splices at ascending in-gene positions is the
      bit of the donor that the number of positions at or before `q`
      selects. */
  lemma {:induction false} SpliceRunBits(g: int, cur: int, nxt: int, ps: seq<int>, q: nat)
    requires InRange(g) && InRange(cur) && InRange(nxt) && q < BIT_LEN
    requires SortedAsc(ps) && forall k :: 0 <= k < |ps| ==> 0 <= ps[k] < BIT_LEN
    ensures InRange(SpliceRun(g, cur, nxt, ps))
    ensures Binary(SpliceRun(g, cur, nxt, ps))[q] == Binary(Donor(g, cur, nxt, CountAtMost(ps, q)))[q]
    decreases |ps|
  {
    SpliceRunInRange(g, cur, nxt, ps);
    if ps != [] {
      var p := ps[0];
      SplicedBit(g, nxt, p, q);
      SpliceRunBits(Spliced(g, nxt, p), nxt, cur, ps[1..], q);
      assert CountAtMost(ps, q) == (if p <= q then 1 else 0) + CountAtMost(ps[1..], q);
      if q < p {
        CountAtMostNone(ps[1..], q);
      }
      DonorStep(g, cur, nxt, p, CountAtMost(ps[1..], q), q);
    }
  }

  /** Starting from `a` after an even number of points and from `b` after an
      odd one, `c` further points leave the parent the total count selects. */
  lemma DonorParity(a: int, b: int, k0: nat, c: nat)
    ensures var x, y := if k0 % 2 == 0 then a else b, if k0 % 2 == 0 then b else a;
      Donor(x, x, y, c) == if (k0 + c) % 2 == 1 then b else a
  {
  }

  /** For sorted non-negative points, the count up to bit `16 i + q` is the
      cursor position at gene `i` plus the count of in-gene positions. */
  lemma CountAtGene(sorted: seq<int>, i: nat, q: nat)
    requires SortedAsc(sorted) && forall k :: 0 <= k < |sorted| ==> sorted[k] >= 0
    requires q < BIT_LEN
    ensures var k0, k1 := Before(sorted, i), Consumed(sorted, i);
      CountAtMost(sorted, i * BIT_LEN + q) == k0 + CountAtMost(Positions(sorted[k0..k1]), q)
  {
    var j := i * BIT_LEN + q;
    var k0, k1 := Before(sorted, i), Consumed(sorted, i);
    GeneRun(sorted, i, k0, k1);
    CountInGene(sorted[k0..k1], i, q);
    CountThreeParts(sorted, k0, k1, j);
    CountAtMostAll(sorted[..k0], j);
    CountAtMostNone(sorted[k1..], j);
  }

  /** The count over a sequence cut in three is the sum of the counts. */
  lemma CountThreeParts(s: seq<int>, k0: nat, k1: nat, j: int)
    requires k0 <= k1 <= |s|
    ensures CountAtMost(s, j) == CountAtMost(s[..k0], j) + CountAtMost(s[k0..k1], j) + CountAtMost(s[k1..], j)
  {
    assert s == s[..k0] + s[k0..k1] + s[k1..];
    CountAtMostAppend(s[..k0] + s[k0..k1], s[k1..], j);
    CountAtMostAppend(s[..k0], s[k0..k1], j);
  }

  /** The multi-point crossover law on sorted points. */
  lemma ChildBitsSorted(a: seq<int>, b: seq<int>, sorted: seq<int>, i: nat, q: nat)
    requires |a| == |b| && AllInRange(a) && AllInRange(b)
    requires SortedAsc(sorted) && forall k :: 0 <= k < |sorted| ==> sorted[k] >= 0
    requires i < |a| && q < BIT_LEN
    ensures InRange(Child(a, b, sorted)[i])
    ensures Binary(Child(a, b, sorted)[i])[q]
      == Binary(if CountAtMost(sorted, i * BIT_LEN + q) % 2 == 1 then b[i] else a[i])[q]
  {
    var k0, k1 := Before(sorted, i), Consumed(sorted, i);
    var ps := Positions(sorted[k0..k1]);
    var c := CountAtMost(ps, q);
    GeneRun(sorted, i, k0, k1);
    CountAtGene(sorted, i, q);
    DonorParity(a[i], b[i], k0, c);
    var x, y := if k0 % 2 == 0 then a[i] else b[i], if k0 % 2 == 0 then b[i] else a[i];
    assert Child(a, b, sorted)[i] == SpliceRun(x, x, y, ps);
    SpliceRunBits(x, x, y, ps, q);
  }

  lemma SortNonNegative(dots: seq<int>)
    requires forall k :: 0 <= k < |dots| ==> dots[k] >= 0
    ensures forall k :: 0 <= k < |Sort(dots)| ==> Sort(dots)[k] >= 0
  {
    var sorted := Sort(dots);
    SortSorted(dots);
    forall k | 0 <= k < |sorted|
      ensures sorted[k] >= 0
    {
      assert sorted[k] in multiset(dots);
    }
  }

  /** The law for any ascending arrangement of the points. */
  lemma ChildBitsArranged(a: seq<int>, b: seq<int>, sorted: seq<int>, dots: seq<int>, i: nat, q: nat)
    requires |a| == |b| && AllInRange(a) && AllInRange(b)
    requires SortedAsc(sorted) && forall k :: 0 <= k < |sorted| ==> sorted[k] >= 0
    requires multiset(sorted) == multiset(dots)
    requires i < |a| && q < BIT_LEN
    ensures InRange(Child(a, b, sorted)[i])
    ensures Binary(Child(a, b, sorted)[i])[q]
      == Binary(if CountAtMost(dots, i * BIT_LEN + q) % 2 == 1 then b[i] else a[i])[q]
  {
    ChildBitsSorted(a, b, sorted, i, q);
    CountAtMostPermutation(dots, sorted, i * BIT_LEN + q);
  }

  /** The multi-point crossover law: for points at non-negative offsets,
      bit `q` of child gene `i` comes from `b` exactly when an odd number of
      points lie at or before global bit `16 i + q`, and from `a` otherwise;
      the donor switches once per point, whatever order the points came in. */
  lemma ChildBits(a: seq<int>, b: seq<int>, dots: seq<int>, i: nat, q: nat)
    requires |a| == |b| && AllInRange(a) && AllInRange(b)
    requires forall k :: 0 <= k < |dots| ==> dots[k] >= 0
    requires i < |a| && q < BIT_LEN
    ensures InRange(Child(a, b, Sort(dots))[i])
    ensures Binary(Child(a, b, Sort(dots))[i])[q]
      == Binary(if CountAtMost(dots, i * BIT_LEN + q) % 2 == 1 then b[i] else a[i])[q]
  {
    SortNonNegative(dots);
    SortSorted(dots);
    ChildBitsArranged(a, b, Sort(dots), dots, i, q);
  }

  /** For sorted non-negative points, the run the cursor consumes at gene
      `i` holds exactly the points of gene `i`, at ascending positions;
      earlier points lie before the gene and later ones after it. */
  lemma GeneRun(sorted: seq<int>, i: nat, k0: nat, k1: nat)
    requires SortedAsc(sorted) && forall k :: 0 <= k < |sorted| ==> sorted[k] >= 0
    requires k0 == Before(sorted, i) && k1 == Consumed(sorted, i)
    ensures forall k :: 0 <= k < k0 ==> sorted[k] < i * BIT_LEN
    ensures forall k :: k0 <= k < k1 ==> sorted[k] / BIT_LEN == i
    ensures forall k :: k1 <= k < |sorted| ==> sorted[k] >= (i + 1) * BIT_LEN
    ensures SortedAsc(Positions(sorted[k0..k1]))
    ensures forall k :: 0 <= k < k1 - k0 ==> 0 <= Positions(sorted[k0..k1])[k] < BIT_LEN
  {
    GeneRunBounds(sorted, i, k0, k1);
    RunPositions(sorted[k0..k1], i);
  }

  /** The points before the cursor's start for gene `i` lie in earlier
      genes, the run lies in gene `i`, and the rest in later genes. */
  lemma GeneRunBounds(sorted: seq<int>, i: nat, k0: nat, k1: nat)
    requires SortedAsc(sorted) && forall k :: 0 <= k < |sorted| ==> sorted[k] >= 0
    requires k0 == Before(sorted, i) && k1 == Consumed(sorted, i)
    ensures forall k :: 0 <= k < k0 ==> sorted[k] < i * BIT_LEN
    ensures forall k :: k0 <= k < k1 ==> sorted[k] / BIT_LEN == i
    ensures forall k :: k1 <= k < |sorted| ==> sorted[k] >= (i + 1) * BIT_LEN
  {
    ConsumedStops(sorted, i);
    if i > 0 {
      ConsumedStops(sorted, i - 1);
    }
    forall k | k0 <= k < k1
      ensures sorted[k] / BIT_LEN == i
    {
      if i > 0 && k0 < |sorted| {
        assert sorted[k0] / BIT_LEN > i - 1;
        assert sorted[k0] <= sorted[k];
      }
    }
    forall k | k1 <= k < |sorted|
      ensures sorted[k] >= (i + 1) * BIT_LEN
    {
      assert sorted[k1] <= sorted[k];
    }
  }

  /** A sorted run of points in one gene has sorted in-gene positions. */
  lemma RunPositions(run: seq<int>, i: nat)
    requires SortedAsc(run) && forall k :: 0 <= k < |run| ==> run[k] / BIT_LEN == i
    ensures SortedAsc(Positions(run))
    ensures forall k :: 0 <= k < |run| ==> 0 <= Positions(run)[k] < BIT_LEN
  {
    var ps := Positions(run);
    forall x, y | 0 <= x < y < |ps|
      ensures ps[x] <= ps[y]
    {
      assert run[x] <= run[y];
    }
  }

}
