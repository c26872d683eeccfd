/** Decision support under missing class calls (src/bactmdrprofiler/mdr/decision_v3.py):
    the posterior probability of MDR by enumerating the outcomes of the untested classes,
    the next test ranked by expected value of perfect information (EVPI) per cost, and the
    Shapley attribution of the MDR indicator to the most prevalent classes. */
module DecisionV3 {
  import opened Wrappers
  import opened Combinatorics
  import opened Bernoulli
  import opened Ordering
  import opened Classification

  function MaxR(a: real, b: real): real {
    if a >= b then a else b
  }

  function MinR(a: real, b: real): real {
    if a <= b then a else b
  }

  /** min(max(x, 0.0), 1.0) */
  function Clamp01(x: real): (r: real)
    ensures 0.0 <= r <= 1.0
    ensures 0.0 <= x <= 1.0 ==> r == x
  {
    MinR(MaxR(x, 0.0), 1.0)
  }

  // ---------------------------------------------------------------------------
  // Bit masks over the missing classes

  /** 1 << n */
  function Pow2(n: nat): (r: nat)
    ensures r >= 1
  {
    if n == 0 then 1 else 2 * Pow2(n - 1)
  }

  /** mask >> i for a non-negative mask: i halvings. */
  function Shr(mask: nat, i: nat): nat {
    if i == 0 then mask else Shr(mask, i - 1) / 2
  }

  /** (mask >> i) & 1 == 1: missing class i is resistant in outcome `mask`. */
  predicate BitSet(mask: nat, i: nat) {
    Shr(mask, i) % 2 == 1
  }

  /** The probability factor of one class: pc if resistant, 1 - pc otherwise. */
  function Factor(pc: real, resistant: bool): real {
    if resistant then pc else 1.0 - pc
  }

  /** kk - known_pos after the first i classes of outcome `mask`. */
  function Ones(mask: nat, i: nat): nat {
    if i == 0 then 0 else Ones(mask, i - 1) + (if BitSet(mask, i - 1) then 1 else 0)
  }

  /** The factors of the first i classes of outcome `mask`. */
  function Factors(ps: seq<real>, mask: nat, i: nat): (fs: seq<real>)
    requires i <= |ps|
    ensures |fs| == i
  {
    seq(i, j requires 0 <= j < i => Factor(ps[j], BitSet(mask, j)))
  }

  function Prod(s: seq<real>): real {
    if s == [] then 1.0 else s[0] * Prod(s[1..])
  }

  /** pr after the first i classes of outcome `mask`: the probability of that partial outcome. */
  function Weight(ps: seq<real>, mask: nat, i: nat): real
    requires i <= |ps|
  {
    Prod(Factors(ps, mask, i))
  }

  /** What outcome `mask` adds to p: its probability when it reaches `need` resistant classes. */
  function Term(ps: seq<real>, need: int, mask: nat): real {
    if Ones(mask, |ps|) >= need then Weight(ps, mask, |ps|) else 0.0
  }

  /** p after the outcomes 0 .. count - 1. */
  function MaskSum(ps: seq<real>, need: int, count: nat): real {
    if count == 0 then 0.0 else MaskSum(ps, need, count - 1) + Term(ps, need, count - 1)
  }

  /** Outcome 2h + b is outcome h of the remaining classes shifted past a first bit b. */
  lemma {:induction false} ShrPair(h: nat, b: nat, i: nat)
    requires b < 2
    ensures Shr(2 * h + b, i + 1) == Shr(h, i)
  {
    if i > 0 {
      ShrPair(h, b, i - 1);
    }
  }

  lemma {:induction false} OnesPair(h: nat, b: nat, i: nat)
    requires b < 2
    ensures Ones(2 * h + b, i + 1) == b + Ones(h, i)
  {
    if i > 0 {
      OnesPair(h, b, i - 1);
      ShrPair(h, b, i - 1);
    }
  }

  lemma {:induction false} ProdSnoc(s: seq<real>, f: real)
    ensures Prod(s + [f]) == Prod(s) * f
  {
    if s != [] {
      assert (s + [f])[1..] == s[1..] + [f];
      ProdSnoc(s[1..], f);
      Associate(Prod(s + [f]), Prod(s), s[0], Prod(s[1..] + [f]), Prod(s[1..]), f);
    }
  }

  /** x == h * t, t == r * f and y == h * r give x == y * f. */
  lemma Associate(x: real, y: real, h: real, t: real, r: real, f: real)
    requires x == h * t && t == r * f && y == h * r
    ensures x == y * f
  {
  }

  /** One more class multiplies the weight by its factor (the inner loop's pr *= ...). */
  lemma WeightStep(ps: seq<real>, mask: nat, i: nat)
    requires i < |ps|
    ensures Weight(ps, mask, i + 1) == Weight(ps, mask, i) * Factor(ps[i], BitSet(mask, i))
  {
    assert Factors(ps, mask, i + 1) == Factors(ps, mask, i) + [Factor(ps[i], BitSet(mask, i))];
    ProdSnoc(Factors(ps, mask, i), Factor(ps[i], BitSet(mask, i)));
  }

  lemma WeightPair(ps: seq<real>, h: nat, b: nat, i: nat)
    requires b < 2 && i < |ps|
    ensures Weight(ps, 2 * h + b, i + 1) == Factor(ps[0], b == 1) * Weight(ps[1..], h, i)
  {
    var fs := Factors(ps, 2 * h + b, i + 1);
    var gs := Factors(ps[1..], h, i);
    forall j | 0 <= j < i ensures fs[j + 1] == gs[j] {
      ShrPair(h, b, j);
    }
    assert fs[1..] == gs;
  }

  /** An outcome whose first class is susceptible. */
  lemma TermEven(ps: seq<real>, need: int, h: nat)
    requires |ps| > 0
    ensures Term(ps, need, 2 * h + 0) == (1.0 - ps[0]) * Term(ps[1..], need, h)
  {
    var m := |ps| - 1;
    OnesPair(h, 0, m);
    WeightPair(ps, h, 0, m);
    assert |ps[1..]| == m;
  }

  /** An outcome whose first class is resistant. */
  lemma TermOdd(ps: seq<real>, need: int, h: nat)
    requires |ps| > 0
    ensures Term(ps, need, 2 * h + 1) == ps[0] * Term(ps[1..], need - 1, h)
  {
    var m := |ps| - 1;
    OnesPair(h, 1, m);
    WeightPair(ps, h, 1, m);
    assert |ps[1..]| == m;
  }

  /** The two outcomes that differ only in the first class split it off as a mixture. */
  lemma TermPair(ps: seq<real>, need: int, h: nat)
    requires |ps| > 0
    ensures Term(ps, need, 2 * h) + Term(ps, need, 2 * h + 1)
         == Mix(ps[0], Term(ps[1..], need - 1, h), Term(ps[1..], need, h))
  {
    TermEven(ps, need, h);
    TermOdd(ps, need, h);
    assert 2 * h + 0 == 2 * h;
  }

  lemma {:induction false} MaskSumPair(ps: seq<real>, need: int, count: nat)
    requires |ps| > 0
    ensures MaskSum(ps, need, 2 * count)
         == Mix(ps[0], MaskSum(ps[1..], need - 1, count), MaskSum(ps[1..], need, count))
  {
    if count == 0 {
      MixSame(ps[0], 0.0);
    } else {
      var c := count - 1;
      MaskSumPair(ps, need, c);
      TermPair(ps, need, c);
      assert 2 * count - 1 == 2 * c + 1;
      MixAdd(ps[0], MaskSum(ps[1..], need - 1, c), MaskSum(ps[1..], need, c),
             Term(ps[1..], need - 1, c), Term(ps[1..], need, c));
    }
  }

  /** Summing the probability of every outcome that reaches `need` resistant classes is the
      reference probability of reaching it. */
  lemma {:induction false} MaskSumIsAtLeast(ps: seq<real>, need: int)
    ensures MaskSum(ps, need, Pow2(|ps|)) == AtLeast(ps, need)
    decreases |ps|
  {
    if ps != [] {
      var rest := ps[1..];
      MaskSumPair(ps, need, Pow2(|rest|));
      MaskSumIsAtLeast(rest, need - 1);
      MaskSumIsAtLeast(rest, need);
      assert RemoveAt(ps, 0) == rest;
      AtLeastCondition(ps, 0, need);
    }
  }

  /** The outcome probabilities sum to one. */
  lemma OutcomesSumToOne(ps: seq<real>)
    ensures MaskSum(ps, 0, Pow2(|ps|)) == 1.0
  {
    MaskSumIsAtLeast(ps, 0);
    AtLeastCertain(ps, 0);
  }

  // ---------------------------------------------------------------------------
  // _posterior_mdr_prob

  /** missing_prior.get(c, 0.5) */
  function PriorOf(prior: map<string, real>, c: string): real {
    if c in prior then prior[c] else 0.5
  }

  /** The classes whose call is NA, in column order. */
  function MissingClasses(classes: seq<string>, row: seq<Call>): (m: seq<string>)
    requires |classes| == |row|
    ensures |m| == Count(row, None)
    ensures forall c :: c in m ==> c in classes
  {
    if row == [] then []
    else (if row[0].None? then [classes[0]] else []) + MissingClasses(classes[1..], row[1..])
  }

  function PriorsOf(prior: map<string, real>, names: seq<string>): (ps: seq<real>)
    ensures |ps| == |names|
  {
    seq(|names|, i requires 0 <= i < |names| => PriorOf(prior, names[i]))
  }

  /** The posterior probability of MDR for a row: the chance that at least threshold -
      known_pos of its missing classes are resistant, each independently with its prior,
      clamped to [0, 1]. */
  function Posterior(classes: seq<string>, row: seq<Call>, threshold: int, prior: map<string, real>): real
    requires |classes| == |row|
  {
    Clamp01(AtLeast(PriorsOf(prior, MissingClasses(classes, row)), threshold - Count(row, Some(true))))
  }

  /** Certain MDR: known_pos already reaches the threshold. */
  lemma PosteriorCertain(classes: seq<string>, row: seq<Call>, threshold: int, prior: map<string, real>)
    requires |classes| == |row| && Count(row, Some(true)) >= threshold
    ensures Posterior(classes, row, threshold, prior) == 1.0
  {
    AtLeastCertain(PriorsOf(prior, MissingClasses(classes, row)), threshold - Count(row, Some(true)));
  }

  /** Impossible MDR: even all missing classes resistant stay below the threshold. */
  lemma PosteriorImpossible(classes: seq<string>, row: seq<Call>, threshold: int, prior: map<string, real>)
    requires |classes| == |row| && Count(row, Some(true)) + Count(row, None) < threshold
    ensures Posterior(classes, row, threshold, prior) == 0.0
  {
    AtLeastImpossible(PriorsOf(prior, MissingClasses(classes, row)), threshold - Count(row, Some(true)));
  }

  /** The posterior is the clamped sum over all 2^m outcomes of the missing classes. */
  lemma PosteriorByMasks(classes: seq<string>, row: seq<Call>, threshold: int, prior: map<string, real>)
    requires |classes| == |row|
    ensures Posterior(classes, row, threshold, prior)
         == Clamp01(MaskSum(PriorsOf(prior, MissingClasses(classes, row)), threshold - Count(row, Some(true)),
                            Pow2(Count(row, None))))
  {
    MaskSumIsAtLeast(PriorsOf(prior, MissingClasses(classes, row)), threshold - Count(row, Some(true)));
  }

  /** The inner loop of _posterior_mdr_prob over the missing classes for one outcome. */
  method Outcome(missing: seq<string>, prior: map<string, real>, knownPos: int, mask: nat)
    returns (kk: int, pr: real)
    ensures kk == knownPos + Ones(mask, |missing|)
    ensures pr == Weight(PriorsOf(prior, missing), mask, |missing|)
  {
    ghost var ps := PriorsOf(prior, missing);
    kk := knownPos;
    pr := 1.0;
    var i := 0;
    while i < |missing|
      invariant 0 <= i <= |missing|
      invariant kk == knownPos + Ones(mask, i)
      invariant pr == Weight(ps, mask, i)
    {
      WeightStep(ps, mask, i);
      var pc := PriorOf(prior, missing[i]);
      var bit := Shr(mask, i) % 2;
      assert ps[i] == pc && (bit == 1 <==> BitSet(mask, i));
      if bit == 1 {
        kk := kk + 1;
        pr := pr * pc;
      } else {
        pr := pr * (1.0 - pc);
      }
      i := i + 1;
    }
  }

  /** _posterior_mdr_prob: enumerates the 2^m outcomes of the m missing classes. */
  method PosteriorMdrProb(classes: seq<string>, row: seq<Call>, threshold: int, prior: map<string, real>)
    returns (p: real)
    requires |classes| == |row|
    ensures p == Posterior(classes, row, threshold, prior)
  {
    var knownPos := Count(row, Some(true));
    var missing := MissingClasses(classes, row);
    if knownPos >= threshold {
      PosteriorCertain(classes, row, threshold, prior);
      return 1.0;
    }
    if knownPos + |missing| < threshold {
      PosteriorImpossible(classes, row, threshold, prior);
      return 0.0;
    }
    ghost var ps := PriorsOf(prior, missing);
    p := 0.0;
    var mask := 0;
    while mask < Pow2(|missing|)
      invariant 0 <= mask <= Pow2(|missing|)
      invariant p == MaskSum(ps, threshold - knownPos, mask)
    {
      var kk, pr := Outcome(missing, prior, knownPos, mask);
      if kk >= threshold {
        p := p + pr;
      }
      mask := mask + 1;
    }
    PosteriorByMasks(classes, row, threshold, prior);
    p := Clamp01(p);
  }

  // ---------------------------------------------------------------------------
  // Testing one missing class

  /** Every prior in the map is a probability (unmapped classes get 0.5). */
  predicate ValidPrior(prior: map<string, real>) {
    forall c :: c in prior ==> 0.0 <= prior[c] <= 1.0
  }

  lemma PriorsAreProbabilities(prior: map<string, real>, names: seq<string>)
    requires ValidPrior(prior)
    ensures Probabilities(PriorsOf(prior, names))
  {
  }

  /** Calling missing class k (either way) removes it, at its position j, from the missing
      classes. */
  lemma {:induction false} MissingUpdate(classes: seq<string>, row: seq<Call>, k: nat) returns (j: nat)
    requires |classes| == |row| && k < |row| && row[k].None?
    ensures var m := MissingClasses(classes, row);
      && j < |m| && m[j] == classes[k]
      && MissingClasses(classes, row[k := Some(true)]) == m[..j] + m[j + 1..]
      && MissingClasses(classes, row[k := Some(false)]) == m[..j] + m[j + 1..]
  {
    j := MissingCall(classes, row, k, Some(true));
    SameShape(classes, row[k := Some(true)], row[k := Some(false)]);
  }

  /** Calling missing class k v removes it, at its position j, from the missing classes. */
  lemma {:induction false} MissingCall(classes: seq<string>, row: seq<Call>, k: nat, v: Call) returns (j: nat)
    requires |classes| == |row| && k < |row| && row[k].None? && v.Some?
    ensures var m := MissingClasses(classes, row);
      && j < |m| && m[j] == classes[k]
      && MissingClasses(classes, row[k := v]) == m[..j] + m[j + 1..]
  {
    var m := MissingClasses(classes, row);
    var rest := MissingClasses(classes[1..], row[1..]);
    if k == 0 {
      j := 0;
      assert row[k := v][1..] == row[1..];
      assert m == [classes[0]] + rest;
    } else {
      assert row[k := v][1..] == row[1..][k - 1 := v];
      var j' := MissingCall(classes[1..], row[1..], k - 1, v);
      var head := if row[0].None? then [classes[0]] else [];
      j := |head| + j';
      assert m == head + rest;
      SpliceAfter(head, rest, j');
    }
  }

  /** Removing position |head| + j from head + rest removes position j from rest. */
  lemma SpliceAfter<T>(head: seq<T>, rest: seq<T>, j: nat)
    requires j < |rest|
    ensures (head + rest)[..|head| + j] + (head + rest)[|head| + j + 1..] == head + (rest[..j] + rest[j + 1..])
  {
    assert (head + rest)[..|head| + j] == head + rest[..j];
    assert (head + rest)[|head| + j + 1..] == rest[j + 1..];
  }

  /** The missing classes depend only on which cells are NA. */
  lemma {:induction false} SameShape(classes: seq<string>, r1: seq<Call>, r2: seq<Call>)
    requires |classes| == |r1| == |r2|
    requires forall i :: 0 <= i < |r1| ==> (r1[i].None? <==> r2[i].None?)
    ensures MissingClasses(classes, r1) == MissingClasses(classes, r2)
  {
    if r1 != [] {
      SameShape(classes[1..], r1[1..], r2[1..]);
    }
  }

  /** Calling cell k v instead of w changes the counts of v and w by one. */
  lemma {:induction false} CountUpdate(row: seq<Call>, k: nat, v: Call, w: Call)
    requires k < |row|
    ensures Count(row[k := v], w) + (if row[k] == w then 1 else 0) == Count(row, w) + (if v == w then 1 else 0)
  {
    if k > 0 {
      assert row[k := v][1..] == row[1..][k - 1 := v];
      CountUpdate(row[1..], k - 1, v, w);
    }
  }

  lemma PriorsRemove(prior: map<string, real>, m: seq<string>, j: nat)
    requires j < |m|
    ensures PriorsOf(prior, m[..j] + m[j + 1..]) == RemoveAt(PriorsOf(prior, m), j)
  {
  }

  /** The posterior is the clamped probability of reaching the threshold. */
  lemma PosteriorUnfold(classes: seq<string>, row: seq<Call>, threshold: int, prior: map<string, real>)
    requires |classes| == |row|
    ensures Posterior(classes, row, threshold, prior)
         == Clamp01(AtLeast(PriorsOf(prior, MissingClasses(classes, row)), threshold - Count(row, Some(true))))
  {
  }

  /** With probabilities as priors the clamp never changes the posterior. */
  lemma PosteriorValue(classes: seq<string>, row: seq<Call>, threshold: int, prior: map<string, real>,
                       ps: seq<real>, need: int)
    requires |classes| == |row| && ValidPrior(prior)
    requires ps == PriorsOf(prior, MissingClasses(classes, row)) && need == threshold - Count(row, Some(true))
    ensures Posterior(classes, row, threshold, prior) == AtLeast(ps, need)
  {
    PosteriorUnfold(classes, row, threshold, prior);
    PriorsAreProbabilities(prior, MissingClasses(classes, row));
    ClampedAtLeast(ps, need);
  }

  /** The clamp leaves the probability of reaching a threshold unchanged. */
  lemma ClampedAtLeast(ps: seq<real>, need: int)
    requires Probabilities(ps)
    ensures Clamp01(AtLeast(ps, need)) == AtLeast(ps, need)
  {
    AtLeastBounds(ps, need);
  }

  /** Law of total probability: the posterior is the mixture, weighted by the class prior,
      of the posteriors after the test comes back resistant (1) or susceptible (0). */
  lemma PosteriorTotalProbability(classes: seq<string>, row: seq<Call>, threshold: int,
                                  prior: map<string, real>, k: nat)
    requires |classes| == |row| && k < |row| && row[k].None? && ValidPrior(prior)
    ensures Posterior(classes, row, threshold, prior)
         == Mix(PriorOf(prior, classes[k]), Posterior(classes, row[k := Some(true)], threshold, prior),
                Posterior(classes, row[k := Some(false)], threshold, prior))
  {
    var m := MissingClasses(classes, row);
    var ps := PriorsOf(prior, m);
    var j := MissingUpdate(classes, row, k);
    PriorsRemove(prior, m, j);
    var rest := RemoveAt(ps, j);
    var need := threshold - Count(row, Some(true));
    CountUpdate(row, k, Some(true), Some(true));
    CountUpdate(row, k, Some(false), Some(true));
    PosteriorValue(classes, row, threshold, prior, ps, need);
    PosteriorValue(classes, row[k := Some(true)], threshold, prior, rest, need - 1);
    PosteriorValue(classes, row[k := Some(false)], threshold, prior, rest, need);
    AtLeastCondition(ps, j, need);
    assert ps[j] == PriorOf(prior, classes[k]);
  }

  /** Bayes risk of the better decision at posterior p: min(p * fn_cost, (1 - p) * fp_cost). */
  function Risk(p: real, fnCost: real, fpCost: real): real {
    MinR(p * fnCost, (1.0 - p) * fpCost)
  }

  lemma MixMonotone(q: real, x1: real, y1: real, x2: real, y2: real)
    requires 0.0 <= q <= 1.0 && x1 >= x2 && y1 >= y2
    ensures Mix(q, x1, y1) >= Mix(q, x2, y2)
  {
    assert q * x1 - q * x2 == q * (x1 - x2) >= 0.0;
    assert (1.0 - q) * y1 - (1.0 - q) * y2 == (1.0 - q) * (y1 - y2) >= 0.0;
  }

  lemma MixScale(q: real, x: real, y: real, c: real)
    ensures Mix(q, x, y) * c == Mix(q, x * c, y * c)
    ensures (1.0 - Mix(q, x, y)) * c == Mix(q, (1.0 - x) * c, (1.0 - y) * c)
  {
  }

  /** The risk is concave: knowing the test result never raises the expected risk. */
  lemma RiskConcave(q: real, x: real, y: real, fnCost: real, fpCost: real)
    requires 0.0 <= q <= 1.0
    ensures Risk(Mix(q, x, y), fnCost, fpCost) >= Mix(q, Risk(x, fnCost, fpCost), Risk(y, fnCost, fpCost))
  {
    MixScale(q, x, y, fnCost);
    MixScale(q, x, y, fpCost);
    MixMonotone(q, x * fnCost, y * fnCost, Risk(x, fnCost, fpCost), Risk(y, fnCost, fpCost));
    MixMonotone(q, (1.0 - x) * fpCost, (1.0 - y) * fpCost, Risk(x, fnCost, fpCost), Risk(y, fnCost, fpCost));
  }

  // ---------------------------------------------------------------------------
  // next_best_test_evpi

  /** class_df.mean(skipna=True) of column k: None (NaN) when no isolate was tested. */
  function ColumnMean(t: ClassTable, k: nat): (m: Option<real>)
    requires ClassTableValid(t) && k < |t.classes|
    ensures m.Some? ==> 0.0 <= m.value <= 1.0
  {
    if Count(Column(t, k), Some(true)) + Count(Column(t, k), Some(false)) == 0 then None
    else Some(ClassPrior(t, k))
  }

  /** fillna(0.5) */
  function FillNa(m: Option<real>): real {
    if m.Some? then m.value else 0.5
  }

  /** prev: each class's resistant fraction among the tested isolates, 0.5 when none was
      tested. */
  function PrevalenceMap(t: ClassTable): (prev: map<string, real>)
    requires ClassTableValid(t) && Distinct(t.classes)
  {
    map k | 0 <= k < |t.classes| :: t.classes[k] := FillNa(ColumnMean(t, k))
  }

  lemma PrevalenceMapMeaning(t: ClassTable)
    requires ClassTableValid(t) && Distinct(t.classes)
    ensures ValidPrior(PrevalenceMap(t))
    ensures forall k :: 0 <= k < |t.classes| ==>
      t.classes[k] in PrevalenceMap(t) && PrevalenceMap(t)[t.classes[k]] == FillNa(ColumnMean(t, k))
  {
  }

  /** The cost of testing class c after the overrides (test_costs.items(), None where
      float(v) raises): the last parseable override, floored at 1e-9, else 1.0. */
  function CostFor(overrides: seq<(string, Option<real>)>, c: string): (r: real)
    ensures r >= 0.000000001
  {
    if overrides == [] then 1.0
    else
      var (k, v) := overrides[|overrides| - 1];
      if k == c && v.Some? then MaxR(v.value, 0.000000001) else CostFor(overrides[..|overrides| - 1], c)
  }

  /** A class that no parseable override names keeps the unit cost. */
  lemma {:induction false} CostDefault(overrides: seq<(string, Option<real>)>, c: string)
    requires forall i :: 0 <= i < |overrides| && overrides[i].0 == c ==> overrides[i].1.None?
    ensures CostFor(overrides, c) == 1.0
  {
    if overrides != [] {
      CostDefault(overrides[..|overrides| - 1], c);
    }
  }

  /** costs: one entry per class; overrides of unknown classes are ignored. */
  method TestCosts(classes: seq<string>, overrides: seq<(string, Option<real>)>)
    returns (costs: map<string, real>)
    ensures costs.Keys == Elems(classes)
    ensures forall c :: c in costs ==> costs[c] == CostFor(overrides, c)
  {
    costs := map c | c in classes :: 1.0;
    var i := 0;
    while i < |overrides|
      invariant 0 <= i <= |overrides|
      invariant costs.Keys == Elems(classes)
      invariant forall c :: c in costs ==> costs[c] == CostFor(overrides[..i], c)
    {
      assert overrides[..i + 1][..i] == overrides[..i];
      var (k, v) := overrides[i];
      if k in costs && v.Some? {
        costs := costs[k := MaxR(v.value, 0.000000001)];
      }
      i := i + 1;
    }
    assert overrides[..i] == overrides;
  }

  /** One output row: Strain_ID, Candidate_Test_Class, Current_pMDR, Current_BayesRisk,
      Expected_BayesRisk_AfterTest, EVPI_RiskReduction, Test_Cost, EVPI_per_Cost,
      Class_Prevalence, Current_Uncertain, N_tested. */
  datatype EvpiRow = EvpiRow(strain: string, test: string, pMdr: real, risk: real, riskAfter: real,
                             evpi: real, cost: real, evpiPerCost: real, prevalence: real,
                             uncertain: nat, tested: nat)

  /** The row for testing missing class k of an isolate. */
  function CandidateRow(classes: seq<string>, row: seq<Call>, id: string, k: nat, threshold: int,
                        prev: map<string, real>, cost: real, fnCost: real, fpCost: real): EvpiRow
    requires |classes| == |row| && k < |row| && cost > 0.0
  {
    var p := Posterior(classes, row, threshold, prev);
    var pc := PriorOf(prev, classes[k]);
    var p1 := Posterior(classes, row[k := Some(true)], threshold, prev);
    var p0 := Posterior(classes, row[k := Some(false)], threshold, prev);
    var risk := Risk(p, fnCost, fpCost);
    var after := Mix(pc, Risk(p1, fnCost, fpCost), Risk(p0, fnCost, fpCost));
    var evpi := MaxR(risk - after, 0.0);
    EvpiRow(id, classes[k], p, risk, after, evpi, cost, evpi / cost, pc,
            if 0.0 < p < 1.0 then 1 else 0, Count(row, Some(true)) + Count(row, Some(false)))
  }

  /** What a candidate row reports: a probability of MDR that is the prevalence-weighted
      mixture of the two test outcomes, a risk reduction that is exactly the drop in expected
      Bayes risk (which is never negative, so max(., 0) never bites), a non-negative value
      per cost, and the uncertainty flag and tested count of the isolate. */
  lemma CandidateMeaning(classes: seq<string>, row: seq<Call>, id: string, k: nat, threshold: int,
                         prev: map<string, real>, cost: real, fnCost: real, fpCost: real)
    requires |classes| == |row| && k < |row| && row[k].None? && cost > 0.0 && ValidPrior(prev)
    ensures var r := CandidateRow(classes, row, id, k, threshold, prev, cost, fnCost, fpCost);
      && 0.0 <= r.pMdr <= 1.0
      && 0.0 <= r.prevalence <= 1.0
      && r.pMdr == Mix(r.prevalence, Posterior(classes, row[k := Some(true)], threshold, prev),
                       Posterior(classes, row[k := Some(false)], threshold, prev))
      && r.evpi == r.risk - r.riskAfter
      && r.evpiPerCost >= 0.0
      && (r.uncertain == 1 <==> 0.0 < r.pMdr < 1.0)
      && r.tested + Count(row, None) == |row|
  {
    var p1 := Posterior(classes, row[k := Some(true)], threshold, prev);
    var p0 := Posterior(classes, row[k := Some(false)], threshold, prev);
    var pc := PriorOf(prev, classes[k]);
    PosteriorTotalProbability(classes, row, threshold, prev, k);
    RiskConcave(pc, p1, p0, fnCost, fpCost);
    CountPartition(row);
    var r := CandidateRow(classes, row, id, k, threshold, prev, cost, fnCost, fpCost);
    PositiveQuotient(r.evpi, cost);
  }

  lemma PositiveQuotient(x: real, y: real)
    requires x >= 0.0 && y > 0.0
    ensures x / y >= 0.0
  {
  }

  /** A missing class names its own NA cell when the class names are distinct. */
  lemma {:induction false} MissingIsNa(classes: seq<string>, row: seq<Call>, c: string)
    requires |classes| == |row| && Distinct(classes) && c in MissingClasses(classes, row)
    ensures row[IndexOf(classes, c)].None?
  {
    if classes[0] != c {
      DistinctTail(classes);
      assert c in MissingClasses(classes[1..], row[1..]);
      MissingIsNa(classes[1..], row[1..], c);
    } else {
      assert classes[0] !in classes[1..];
    }
  }

  /** The rows of one isolate, one per missing class in column order. */
  function IsolateRows(classes: seq<string>, row: seq<Call>, id: string, threshold: int,
                       prev: map<string, real>, overrides: seq<(string, Option<real>)>,
                       fnCost: real, fpCost: real): (rs: seq<EvpiRow>)
    requires |classes| == |row|
    ensures |rs| == Count(row, None)
  {
    var miss := MissingClasses(classes, row);
    seq(|miss|, j requires 0 <= j < |miss| =>
      CandidateRow(classes, row, id, IndexOf(classes, miss[j]), threshold, prev,
                   CostFor(overrides, miss[j]), fnCost, fpCost))
  }

  /** The rows of the first n isolates, before sorting. */
  function AllCandidates(t: ClassTable, ids: seq<string>, threshold: int,
                        overrides: seq<(string, Option<real>)>, fnCost: real, fpCost: real, n: nat)
    : (rs: seq<EvpiRow>)
    requires ClassTableValid(t) && Distinct(t.classes) && |ids| == |t.rows| && n <= |t.rows|
  {
    if n == 0 then []
    else AllCandidates(t, ids, threshold, overrides, fnCost, fpCost, n - 1)
         + IsolateRows(t.classes, t.rows[n - 1], ids[n - 1], threshold, PrevalenceMap(t),
                       overrides, fnCost, fpCost)
  }

  /** Every candidate of every isolate is a missing class of that isolate, reported with the
      isolate's id and with the meaning CandidateMeaning gives it. */
  lemma IsolateRowsMeaning(classes: seq<string>, row: seq<Call>, id: string, threshold: int,
                           prev: map<string, real>, overrides: seq<(string, Option<real>)>,
                           fnCost: real, fpCost: real, j: nat)
    requires |classes| == |row| && Distinct(classes) && ValidPrior(prev)
    requires j < Count(row, None)
    ensures var r := IsolateRows(classes, row, id, threshold, prev, overrides, fnCost, fpCost)[j];
      var k := IndexOf(classes, r.test);
      && r.strain == id && r.test in classes && row[k].None?
      && r.cost == CostFor(overrides, r.test)
      && r.evpi == r.risk - r.riskAfter
      && r.pMdr == Mix(r.prevalence, Posterior(classes, row[k := Some(true)], threshold, prev),
                       Posterior(classes, row[k := Some(false)], threshold, prev))
  {
    var miss := MissingClasses(classes, row);
    var c := miss[j];
    MissingIsNa(classes, row, c);
    CandidateMeaning(classes, row, id, IndexOf(classes, c), threshold, prev, CostFor(overrides, c),
                     fnCost, fpCost);
  }

  /** sort_values(['Strain_ID', 'EVPI_per_Cost', 'EVPI_RiskReduction'],
      ascending=[True, False, False]) */
  predicate EvpiOrder(a: EvpiRow, b: EvpiRow) {
    if a.strain != b.strain then StrLe(a.strain, b.strain)
    else a.evpiPerCost > b.evpiPerCost || (a.evpiPerCost == b.evpiPerCost && a.evpi >= b.evpi)
  }

  lemma StrLeAntisymmetry(a: string, b: string)
    ensures StrLe(a, b) && StrLe(b, a) ==> a == b
  {
    if StrLe(a, b) && StrLe(b, a) {
      StrLeAntisymmetric(a, b);
    }
  }

  lemma EvpiOrderTransitive(a: EvpiRow, b: EvpiRow, c: EvpiRow)
    requires EvpiOrder(a, b) && EvpiOrder(b, c)
    ensures EvpiOrder(a, c)
  {
    StrLeAntisymmetry(a.strain, b.strain);
    StrLeAntisymmetry(b.strain, c.strain);
    StrLeAntisymmetry(a.strain, c.strain);
    if StrLe(a.strain, b.strain) && StrLe(b.strain, c.strain) {
      StrLeTransitive(a.strain, b.strain, c.strain);
    }
  }

  lemma EvpiOrderIsTotalPreorder()
    ensures TotalPreorder(EvpiOrder)
  {
    forall a, b ensures EvpiOrder(a, b) || EvpiOrder(b, a) {
      StrLeTotal(a.strain, b.strain);
    }
    forall a, b, c | EvpiOrder(a, b) && EvpiOrder(b, c) ensures EvpiOrder(a, c) {
      EvpiOrderTransitive(a, b, c);
    }
  }

  /** The inner loop of next_best_test_evpi for one isolate: nothing when it has no missing
      class, else one row per missing class. */
  method IsolateCandidates(classes: seq<string>, row: seq<Call>, id: string, threshold: int,
                           prev: map<string, real>, costs: map<string, real>,
                           ghost overrides: seq<(string, Option<real>)>, fnCost: real, fpCost: real)
    returns (rows: seq<EvpiRow>)
    requires |classes| == |row|
    requires costs.Keys == Elems(classes) && forall c :: c in costs ==> costs[c] == CostFor(overrides, c)
    ensures rows == IsolateRows(classes, row, id, threshold, prev, overrides, fnCost, fpCost)
  {
    var miss := MissingClasses(classes, row);
    rows := [];
    if miss == [] {
      return;
    }
    var pMdr := PosteriorMdrProb(classes, row, threshold, prev);
    var risk0 := Risk(pMdr, fnCost, fpCost);
    ghost var spec := IsolateRows(classes, row, id, threshold, prev, overrides, fnCost, fpCost);
    var j := 0;
    while j < |miss|
      invariant 0 <= j <= |miss|
      invariant rows == spec[..j]
    {
      var r := Candidate(classes, row, id, threshold, prev, costs, overrides, fnCost, fpCost,
                         pMdr, risk0, miss[j]);
      assert r == spec[j];
      TakeSnoc(spec, j);
      rows := rows + [r];
      j := j + 1;
    }
    assert spec[..j] == spec;
  }

  lemma TakeSnoc<T>(s: seq<T>, j: nat)
    requires j < |s|
    ensures s[..j] + [s[j]] == s[..j + 1]
  {
  }

  /** One iteration of the loop over the missing classes of an isolate: the posteriors with
      class c called resistant and susceptible, and the risk after the test. */
  method Candidate(classes: seq<string>, row: seq<Call>, id: string, threshold: int,
                   prev: map<string, real>, costs: map<string, real>,
                   ghost overrides: seq<(string, Option<real>)>, fnCost: real, fpCost: real,
                   pMdr: real, risk0: real, c: string)
    returns (r: EvpiRow)
    requires |classes| == |row| && c in classes
    requires costs.Keys == Elems(classes) && forall c :: c in costs ==> costs[c] == CostFor(overrides, c)
    requires pMdr == Posterior(classes, row, threshold, prev) && risk0 == Risk(pMdr, fnCost, fpCost)
    ensures r == CandidateRow(classes, row, id, IndexOf(classes, c), threshold, prev,
                              CostFor(overrides, c), fnCost, fpCost)
  {
    var k := IndexOf(classes, c);
    var pc := PriorOf(prev, c);
    var p1 := PosteriorMdrProb(classes, row[k := Some(true)], threshold, prev);
    var p0 := PosteriorMdrProb(classes, row[k := Some(false)], threshold, prev);
    var riskAfter := Mix(pc, Risk(p1, fnCost, fpCost), Risk(p0, fnCost, fpCost));
    var evpi := MaxR(risk0 - riskAfter, 0.0);
    r := EvpiRow(id, c, pMdr, risk0, riskAfter, evpi, costs[c], evpi / costs[c], pc,
                 if 0.0 < pMdr < 1.0 then 1 else 0, Count(row, Some(true)) + Count(row, Some(false)));
  }

  /** next_best_test_evpi: for every isolate and every class it was not tested for, the
      expected reduction in Bayes risk from testing that class, sorted by isolate, then by
      reduction per cost and reduction, both decreasing. The sort on three keys is stable,
      so rows that tie on all three keep their candidate order. */
  method NextBestTestEvpi(t: ClassTable, ids: seq<string>, threshold: int,
                          overrides: seq<(string, Option<real>)>, fnCost: real, fpCost: real)
    returns (out: seq<EvpiRow>)
    requires ClassTableValid(t) && Distinct(t.classes) && |ids| == |t.rows|
    ensures multiset(out) == multiset(AllCandidates(t, ids, threshold, overrides, fnCost, fpCost, |t.rows|))
    ensures SortedBy(out, EvpiOrder)
    ensures forall z :: Tied(out, z, EvpiOrder)
                        == Tied(AllCandidates(t, ids, threshold, overrides, fnCost, fpCost, |t.rows|), z, EvpiOrder)
    ensures |t.rows| == 0 || |t.classes| == 0 ==> out == []
  {
    if |t.rows| == 0 || |t.classes| == 0 {
      NoClassesNoCandidates(t, ids, threshold, overrides, fnCost, fpCost, |t.rows|);
      return [];
    }
    var prev := PrevalenceMap(t);
    var costs := TestCosts(t.classes, overrides);
    var rows := CollectCandidates(t, ids, threshold, prev, costs, overrides, fnCost, fpCost);
    EvpiOrderIsTotalPreorder();
    out := SortBy(rows, EvpiOrder);
    forall z ensures Tied(out, z, EvpiOrder) == Tied(rows, z, EvpiOrder) {
      SortByStable(rows, EvpiOrder, z);
    }
  }

  /** The loop of next_best_test_evpi over the isolates (class_df.iterrows()). */
  method CollectCandidates(t: ClassTable, ids: seq<string>, threshold: int, prev: map<string, real>,
                           costs: map<string, real>, ghost overrides: seq<(string, Option<real>)>,
                           fnCost: real, fpCost: real)
    returns (rows: seq<EvpiRow>)
    requires ClassTableValid(t) && Distinct(t.classes) && |ids| == |t.rows| && prev == PrevalenceMap(t)
    requires costs.Keys == Elems(t.classes) && forall c :: c in costs ==> costs[c] == CostFor(overrides, c)
    ensures rows == AllCandidates(t, ids, threshold, overrides, fnCost, fpCost, |t.rows|)
  {
    rows := [];
    var i := 0;
    while i < |t.rows|
      invariant 0 <= i <= |t.rows|
      invariant rows == AllCandidates(t, ids, threshold, overrides, fnCost, fpCost, i)
    {
      var isolateRows := IsolateCandidates(t.classes, t.rows[i], ids[i], threshold, prev, costs,
                                           overrides, fnCost, fpCost);
      rows := rows + isolateRows;
      i := i + 1;
    }
  }

  lemma {:induction false} NoClassesNoCandidates(t: ClassTable, ids: seq<string>, threshold: int,
                                                 overrides: seq<(string, Option<real>)>, fnCost: real,
                                                 fpCost: real, n: nat)
    requires ClassTableValid(t) && Distinct(t.classes) && |ids| == |t.rows| && n <= |t.rows|
    requires |t.classes| == 0 || n == 0
    ensures AllCandidates(t, ids, threshold, overrides, fnCost, fpCost, n) == []
  {
    if n > 0 {
      NoClassesNoCandidates(t, ids, threshold, overrides, fnCost, fpCost, n - 1);
      CountPartition(t.rows[n - 1]);
    }
  }

  /** The number of NA cells in the first n isolates. */
  function MissingCells(t: ClassTable, n: nat): nat
    requires n <= |t.rows|
  {
    if n == 0 then 0 else MissingCells(t, n - 1) + Count(t.rows[n - 1], None)
  }

  /** One candidate row per NA cell. */
  lemma {:induction false} CandidatesPerMissingCell(t: ClassTable, ids: seq<string>, threshold: int,
                                                    overrides: seq<(string, Option<real>)>,
                                                    fnCost: real, fpCost: real, n: nat)
    requires ClassTableValid(t) && Distinct(t.classes) && |ids| == |t.rows| && n <= |t.rows|
    ensures |AllCandidates(t, ids, threshold, overrides, fnCost, fpCost, n)| == MissingCells(t, n)
  {
    if n > 0 {
      CandidatesPerMissingCell(t, ids, threshold, overrides, fnCost, fpCost, n - 1);
    }
  }

  // ---------------------------------------------------------------------------
  // Agreement with mdr_probability

  lemma PriorsAppend(prior: map<string, real>, a: seq<string>, b: seq<string>)
    ensures PriorsOf(prior, a + b) == PriorsOf(prior, a) + PriorsOf(prior, b)
  {
  }

  lemma PrevalenceAt(t: ClassTable, k: nat)
    requires ClassTableValid(t) && Distinct(t.classes) && k < |t.classes| && ColumnMean(t, k).Some?
    ensures PriorOf(PrevalenceMap(t), t.classes[k]) == ClassPrior(t, k)
  {
    PrevalenceMapMeaning(t);
  }

  lemma {:induction false} PriorsAgreeFrom(t: ClassTable, i: nat, k: nat)
    requires ClassTableValid(t) && Distinct(t.classes) && i < |t.rows| && k <= |t.classes|
    requires forall q :: 0 <= q < |t.classes| ==> ColumnMean(t, q).Some?
    ensures PriorsOf(PrevalenceMap(t), MissingClasses(t.classes[k..], t.rows[i][k..])) == MissingPriorsFrom(t, i, k)
    decreases |t.classes| - k
  {
    var prev := PrevalenceMap(t);
    if k < |t.classes| {
      var cs, r := t.classes[k..], t.rows[i][k..];
      var cs', r' := t.classes[k + 1..], t.rows[i][k + 1..];
      PriorsAgreeFrom(t, i, k + 1);
      assert cs[1..] == cs' && r[1..] == r';
      var head := if r[0].None? then [cs[0]] else [];
      assert MissingClasses(cs, r) == head + MissingClasses(cs', r');
      PriorsAppend(prev, head, MissingClasses(cs', r'));
      PrevalenceAt(t, k);
      assert PriorsOf(prev, head) == if t.rows[i][k].None? then [ClassPrior(t, k)] else [];
    }
  }

  /** When every class was tested in some isolate, the posterior that next_best_test_evpi
      computes by enumerating outcomes is the P_MDR that mdr_probability computes by
      convolution (the two fill an untested class differently: 0.5 here, 0.0 there). */
  lemma PosteriorAgreesWithMdrProbability(t: ClassTable, threshold: int, i: nat, row: MdrProbRow)
    requires ClassTableValid(t) && Distinct(t.classes) && i < |t.rows|
    requires forall q :: 0 <= q < |t.classes| ==> ColumnMean(t, q).Some?
    requires IsolateProbabilities(t, threshold, i, row)
    ensures Posterior(t.classes, t.rows[i], threshold, PrevalenceMap(t)) == row.pMdr
  {
    PriorsAgreeFrom(t, i, 0);
    assert t.classes[0..] == t.classes && t.rows[i][0..] == t.rows[i];
    PrevalenceMapMeaning(t);
    PosteriorValue(t.classes, t.rows[i], threshold, PrevalenceMap(t), MissingPriors(t, i),
                   threshold - Count(t.rows[i], Some(true)));
  }

  // ---------------------------------------------------------------------------
  // shapley_pattern_contributions

  /** p[x]: every class looked up is a feature, which p maps. */
  function Lookup(p: map<string, real>, x: string): real {
    if x in p then p[x] else 0.0
  }

  /** sum(p[x] for x in S) */
  function SumOf(p: map<string, real>, s: seq<string>): real {
    if s == [] then 0.0 else Lookup(p, s[0]) + SumOf(p, s[1..])
  }

  /** The MDR indicator of a coalition: 1.0 if its prevalences add up to the threshold. */
  function Value(prob: real, threshold: int): real {
    if prob >= threshold as real then 1.0 else 0.0
  }

  /** factorial(r) * factorial(n - r - 1) / factorial(n): the Shapley weight of a coalition of
      r of the other n - 1 features. */
  function ShapWeight(n: nat, r: nat): (w: real)
    requires r < n
    ensures w > 0.0
  {
    (Factorial(r) * Factorial(n - r - 1)) as real / Factorial(n) as real
  }

  /** The weighted marginal contribution of f to coalition s (of size r). */
  function Marginal(p: map<string, real>, f: string, s: seq<string>, n: nat, r: nat, threshold: int): real
    requires r < n
  {
    ShapWeight(n, r) * (Value(SumOf(p, s) + Lookup(p, f), threshold) - Value(SumOf(p, s), threshold))
  }

  /** The contributions of the coalitions cs, in order. */
  function LayerSum(p: map<string, real>, f: string, cs: seq<seq<string>>, n: nat, r: nat, threshold: int): real
    requires r < n
  {
    if cs == [] then 0.0
    else LayerSum(p, f, cs[..|cs| - 1], n, r, threshold) + Marginal(p, f, cs[|cs| - 1], n, r, threshold)
  }

  /** phi after the coalition sizes 0 .. size - 1. */
  function ShapleyUpTo(p: map<string, real>, f: string, others: seq<string>, n: nat, threshold: int, size: nat): real
    requires size <= n
  {
    if size == 0 then 0.0
    else ShapleyUpTo(p, f, others, n, threshold, size - 1)
         + LayerSum(p, f, Combinations(others, size - 1), n, size - 1, threshold)
  }

  /** [x for x in feats if x != f] */
  function Others(feats: seq<string>, f: string): (o: seq<string>)
    ensures |o| <= |feats| && (f in feats ==> |o| < |feats|)
  {
    if feats == [] then [] else (if feats[0] != f then [feats[0]] else []) + Others(feats[1..], f)
  }

  /** The Shapley value of feature f among the n features: every coalition of the other
      features, each size weighted so the sizes count equally. */
  function ShapleyValue(p: map<string, real>, feats: seq<string>, f: string, threshold: int): real
    requires f in feats
  {
    ShapleyUpTo(p, f, Others(feats, f), |feats|, threshold, |Others(feats, f)| + 1)
  }

  lemma {:induction false} OthersOfDistinct(feats: seq<string>, f: string)
    requires Distinct(feats) && f in feats
    ensures |Others(feats, f)| == |feats| - 1
  {
    DistinctTail(feats);
    if feats[0] != f {
      OthersOfDistinct(feats[1..], f);
    } else {
      OthersWithout(feats[1..], f);
    }
  }

  lemma {:induction false} OthersWithout(feats: seq<string>, f: string)
    requires f !in Elems(feats)
    ensures Others(feats, f) == feats
  {
    if feats != [] {
      OthersWithout(feats[1..], f);
      assert feats == [feats[0]] + feats[1..];
    }
  }

  /** A feature of non-negative prevalence never makes a coalition lose MDR. */
  lemma MarginalBounds(p: map<string, real>, f: string, s: seq<string>, n: nat, r: nat, threshold: int)
    requires r < n && Lookup(p, f) >= 0.0
    ensures 0.0 <= Marginal(p, f, s, n, r, threshold) <= ShapWeight(n, r)
  {
  }

  lemma {:induction false} LayerBounds(p: map<string, real>, f: string, cs: seq<seq<string>>, n: nat, r: nat, threshold: int)
    requires r < n && Lookup(p, f) >= 0.0
    ensures 0.0 <= LayerSum(p, f, cs, n, r, threshold) <= |cs| as real * ShapWeight(n, r)
  {
    if cs != [] {
      LayerBounds(p, f, cs[..|cs| - 1], n, r, threshold);
      MarginalBounds(p, f, cs[|cs| - 1], n, r, threshold);
      var w := ShapWeight(n, r);
      assert (|cs| - 1) as real * w + w == |cs| as real * w;
    }
  }

  /** b * w == 1 / n when w == (x * y) / m, b * x * y == f and m == n * f. */
  lemma Ratio(b: int, x: int, y: int, f: int, m: int, n: int, w: real)
    requires b * x * y == f && m == n * f && f > 0 && n > 0 && w == (x * y) as real / m as real
    ensures b as real * w == 1.0 / n as real
  {
    var br, xy, fr, nr := b as real, (x * y) as real, f as real, n as real;
    assert b * (x * y) == f;
    assert br * xy == fr;
    assert m as real == nr * fr;
    calc {
      br * (xy / (nr * fr));
      (br * xy) / (nr * fr);
      fr / (nr * fr);
      1.0 / nr;
    }
  }

  /** The C(n - 1, r) coalitions of size r weigh 1 / n together. */
  lemma LayerWeight(n: nat, r: nat, b: nat, w: real)
    requires r < n && b == Binom(n - 1, r) && w == ShapWeight(n, r)
    ensures b as real * w == 1.0 / n as real
  {
    BinomFactorial(n - 1, r);
    Ratio(b, Factorial(r), Factorial(n - r - 1), Factorial(n - 1), Factorial(n), n, w);
  }

  /** All C(n - 1, r) coalitions of size r together contribute at most 1 / n. */
  lemma LayerTotal(p: map<string, real>, f: string, cs: seq<seq<string>>, n: nat, r: nat, threshold: int)
    requires r < n && Lookup(p, f) >= 0.0 && |cs| == Binom(n - 1, r)
    ensures 0.0 <= LayerSum(p, f, cs, n, r, threshold) <= 1.0 / n as real
  {
    LayerBounds(p, f, cs, n, r, threshold);
    LayerWeight(n, r, |cs|, ShapWeight(n, r));
  }

  lemma AddFraction(a: real, n: real)
    requires n > 0.0
    ensures a / n + 1.0 / n == (a + 1.0) / n
  {
  }

  lemma {:induction false} ShapleyUpToBounds(p: map<string, real>, f: string, others: seq<string>, n: nat,
                                             threshold: int, size: nat)
    requires |others| + 1 == n && size <= n && Lookup(p, f) >= 0.0
    ensures 0.0 <= ShapleyUpTo(p, f, others, n, threshold, size) <= size as real / n as real
  {
    if size > 0 {
      var r := size - 1;
      ShapleyUpToBounds(p, f, others, n, threshold, r);
      CombinationsCount(others, r);
      LayerTotal(p, f, Combinations(others, r), n, r, threshold);
      AddFraction(r as real, n as real);
    }
  }

  /** Each feature's Shapley value lies in [0, 1]: every marginal contribution is 0 or 1 and
      the weights of all coalitions sum to 1. */
  lemma ShapleyBounds(p: map<string, real>, feats: seq<string>, f: string, threshold: int)
    requires Distinct(feats) && f in feats && Lookup(p, f) >= 0.0
    ensures 0.0 <= ShapleyValue(p, feats, f, threshold) <= 1.0
  {
    OthersOfDistinct(feats, f);
    ShapleyUpToBounds(p, f, Others(feats, f), |feats|, threshold, |feats|);
    SelfRatio(|feats| as real);
  }

  lemma SelfRatio(x: real)
    requires x > 0.0
    ensures x / x == 1.0
  {
  }

  lemma {:induction false} LayerNull(p: map<string, real>, f: string, cs: seq<seq<string>>, n: nat, r: nat, threshold: int)
    requires r < n && Lookup(p, f) == 0.0
    ensures LayerSum(p, f, cs, n, r, threshold) == 0.0
  {
    if cs != [] {
      LayerNull(p, f, cs[..|cs| - 1], n, r, threshold);
    }
  }

  lemma {:induction false} UpToNull(p: map<string, real>, f: string, others: seq<string>, n: nat,
                                    threshold: int, size: nat)
    requires size <= n && Lookup(p, f) == 0.0
    ensures ShapleyUpTo(p, f, others, n, threshold, size) == 0.0
  {
    if size > 0 {
      UpToNull(p, f, others, n, threshold, size - 1);
      LayerNull(p, f, Combinations(others, size - 1), n, size - 1, threshold);
    }
  }

  /** Null player: a class nobody is resistant to contributes nothing. */
  lemma ShapleyNull(p: map<string, real>, feats: seq<string>, f: string, threshold: int)
    requires f in feats && Lookup(p, f) == 0.0
    ensures ShapleyValue(p, feats, f, threshold) == 0.0
  {
    UpToNull(p, f, Others(feats, f), |feats|, threshold, |Others(feats, f)| + 1);
  }

  /** The loops of shapley_pattern_contributions for one feature f. */
  method ShapleyFor(feats: seq<string>, p: map<string, real>, f: string, threshold: int) returns (phi: real)
    requires f in feats
    ensures phi == ShapleyValue(p, feats, f, threshold)
  {
    phi := 0.0;
    var others := Others(feats, f);
    var n := |feats|;
    var r := 0;
    while r < |others| + 1
      invariant 0 <= r <= |others| + 1
      invariant phi == ShapleyUpTo(p, f, others, n, threshold, r)
    {
      phi := AddCoalitions(phi, p, f, Combinations(others, r), n, r, threshold);
      r := r + 1;
    }
  }

  /** The innermost loop of shapley_pattern_contributions: adds the weighted marginal
      contribution of f to each coalition of cs to phi. */
  method AddCoalitions(phi0: real, p: map<string, real>, f: string, cs: seq<seq<string>>, n: nat, r: nat,
                       threshold: int) returns (phi: real)
    requires r < n
    ensures phi == phi0 + LayerSum(p, f, cs, n, r, threshold)
  {
    phi := phi0;
    var q := 0;
    while q < |cs|
      invariant 0 <= q <= |cs|
      invariant phi == phi0 + LayerSum(p, f, cs[..q], n, r, threshold)
    {
      assert cs[..q + 1][..q] == cs[..q];
      var s := cs[q];
      var probS := SumOf(p, s);
      var vS := Value(probS, threshold);
      var vSf := Value(probS + Lookup(p, f), threshold);
      assert LayerSum(p, f, cs[..q + 1], n, r, threshold)
          == LayerSum(p, f, cs[..q], n, r, threshold) + Marginal(p, f, s, n, r, threshold);
      phi := phi + ShapWeight(n, r) * (vSf - vS);
      q := q + 1;
    }
    assert cs[..q] == cs;
  }

  /** a sorts no later than b in sort_values(ascending=False) on the class means: larger
      means first, untested (NaN) classes last. */
  predicate MeanGe(a: Option<real>, b: Option<real>) {
    b.None? || (a.Some? && a.value >= b.value)
  }

  function MeanIn(means: map<string, Option<real>>, c: string): Option<real> {
    if c in means then means[c] else None
  }

  /** class_df.mean(skipna=True): None for a class no isolate was tested for. */
  function MeanMap(t: ClassTable): map<string, Option<real>>
    requires ClassTableValid(t) && Distinct(t.classes)
  {
    map k | 0 <= k < |t.classes| :: t.classes[k] := ColumnMean(t, k)
  }

  function ByMean(means: map<string, Option<real>>): (string, string) -> bool {
    (a: string, b: string) => MeanGe(MeanIn(means, a), MeanIn(means, b))
  }

  lemma ByMeanIsTotalPreorder(means: map<string, Option<real>>)
    ensures TotalPreorder(ByMean(means))
  {
    var le := ByMean(means);
    forall a, b, c | le(a, b) && le(b, c) ensures le(a, c) {
      assert MeanGe(MeanIn(means, a), MeanIn(means, b)) && MeanGe(MeanIn(means, b), MeanIn(means, c));
    }
  }

  /** The classes, most prevalent first. */
  function Ranked(t: ClassTable): (r: seq<string>)
    requires ClassTableValid(t) && Distinct(t.classes)
    ensures multiset(r) == multiset(t.classes) && SortedBy(r, ByMean(MeanMap(t)))
  {
    ByMeanIsTotalPreorder(MeanMap(t));
    SortBy(t.classes, ByMean(MeanMap(t)))
  }

  /** How many rows Series.head(min(top_n, len)) keeps: a negative count drops that many
      rows from the end. */
  function HeadCount(len: nat, topN: int): (k: nat)
    ensures k <= len
  {
    var m := if topN < len then topN else len;
    if m >= 0 then m else if len + m >= 0 then len + m else 0
  }

  /** feats: the top_n classes by prevalence. */
  function Features(t: ClassTable, topN: int): seq<string>
    requires ClassTableValid(t) && Distinct(t.classes)
  {
    var r := Ranked(t);
    assert |r| == |multiset(r)| == |t.classes|;
    r[..HeadCount(|r|, topN)]
  }

  /** p: the prevalence of each feature, 0.5 for an untested one. */
  function FeaturePrevalence(t: ClassTable, feats: seq<string>): map<string, real>
    requires ClassTableValid(t) && Distinct(t.classes)
  {
    var prev := PrevalenceMap(t);
    map x | x in feats && x in prev :: prev[x]
  }

  datatype ShapleyRow = ShapleyRow(cls: string, phi: real, prevalence: real)

  /** The rows of shapley_pattern_contributions, in the order of feats. */
  function ShapleyRows(t: ClassTable, threshold: int, topN: int): seq<ShapleyRow>
    requires ClassTableValid(t) && Distinct(t.classes)
  {
    var feats := Features(t, topN);
    RowsOf(FeaturePrevalence(t, feats), feats, threshold)
  }

  /** One row per feature, in the order of feats. */
  function RowsOf(p: map<string, real>, feats: seq<string>, threshold: int): seq<ShapleyRow> {
    seq(|feats|, j requires 0 <= j < |feats| =>
      ShapleyRow(feats[j], ShapleyValue(p, feats, feats[j], threshold), Lookup(p, feats[j])))
  }

  /** The loop of shapley_pattern_contributions over the features. */
  method FeatureRows(p: map<string, real>, feats: seq<string>, threshold: int) returns (rows: seq<ShapleyRow>)
    ensures rows == RowsOf(p, feats, threshold)
  {
    ghost var spec := RowsOf(p, feats, threshold);
    rows := [];
    var j := 0;
    while j < |feats|
      invariant 0 <= j <= |feats| && rows == spec[..j]
    {
      var f := feats[j];
      var phi := ShapleyFor(feats, p, f, threshold);
      var row := ShapleyRow(f, phi, Lookup(p, f));
      assert row == spec[j];
      TakeSnoc(spec, j);
      rows := rows + [row];
      j := j + 1;
    }
    assert rows == spec;
  }

  /** sort_values('Shapley_MDR_Contribution', ascending=False) */
  predicate PhiDesc(a: ShapleyRow, b: ShapleyRow) {
    a.phi >= b.phi
  }

  lemma PhiDescIsTotalPreorder()
    ensures TotalPreorder(PhiDesc)
  {
  }

  /** The features are distinct classes, as many as top_n allows, and every class left out
      ranks no higher than every feature. */
  lemma FeaturesMeaning(t: ClassTable, topN: int)
    requires ClassTableValid(t) && Distinct(t.classes)
    ensures var feats := Features(t, topN);
      && Distinct(feats)
      && |feats| == HeadCount(|t.classes|, topN)
      && (forall x :: x in feats ==> x in t.classes)
      && (forall x, y :: x in feats && y in t.classes && y !in feats ==>
            MeanGe(MeanIn(MeanMap(t), x), MeanIn(MeanMap(t), y)))
  {
    var r := Ranked(t);
    assert |r| == |multiset(r)| == |t.classes|;
    var k := HeadCount(|r|, topN);
    var feats := Features(t, topN);
    assert feats == r[..k];
    PermutationKeepsUnique(t.classes, r);
    forall x | x in feats ensures x in t.classes {
      assert x in r;
    }
    forall x, y | x in feats && y in t.classes && y !in feats
      ensures MeanGe(MeanIn(MeanMap(t), x), MeanIn(MeanMap(t), y))
    {
      assert y in r;
      SortedPrefixFirst(r, k, x, y, ByMean(MeanMap(t)));
    }
  }

  /** The j-th row names the j-th feature with its prevalence, and attributes it a
      contribution in [0, 1], which is 0 for a class no isolate is resistant to. */
  lemma ShapleyRowAt(t: ClassTable, threshold: int, topN: int, j: nat)
    requires ClassTableValid(t) && Distinct(t.classes) && j < |Features(t, topN)|
    ensures var row, f := ShapleyRows(t, threshold, topN)[j], Features(t, topN)[j];
      && row.cls == f
      && row.prevalence == PriorOf(PrevalenceMap(t), f)
      && 0.0 <= row.prevalence <= 1.0
      && 0.0 <= row.phi <= 1.0
      && (row.prevalence == 0.0 ==> row.phi == 0.0)
  {
    var feats := Features(t, topN);
    var p, prev, f := FeaturePrevalence(t, feats), PrevalenceMap(t), feats[j];
    var row := ShapleyRows(t, threshold, topN)[j];
    assert row == ShapleyRow(f, ShapleyValue(p, feats, f, threshold), Lookup(p, f));
    FeaturesMeaning(t, topN);
    PrevalenceMapMeaning(t);
    assert f in feats && f in t.classes;
    var k :| 0 <= k < |t.classes| && t.classes[k] == f;
    assert f in prev && Lookup(p, f) == prev[f];
    ShapleyBounds(p, feats, f, threshold);
    if prev[f] == 0.0 {
      ShapleyNull(p, feats, f, threshold);
    }
  }

  lemma ShapleyRowsMeaning(t: ClassTable, threshold: int, topN: int)
    requires ClassTableValid(t) && Distinct(t.classes)
    ensures |ShapleyRows(t, threshold, topN)| == |Features(t, topN)| <= |t.classes|
    ensures forall j :: 0 <= j < |ShapleyRows(t, threshold, topN)| ==>
      var row := ShapleyRows(t, threshold, topN)[j];
      && row.cls == Features(t, topN)[j]
      && 0.0 <= row.phi <= 1.0
      && (row.prevalence == 0.0 ==> row.phi == 0.0)
  {
    FeaturesMeaning(t, topN);
    forall j | 0 <= j < |ShapleyRows(t, threshold, topN)|
      ensures var row := ShapleyRows(t, threshold, topN)[j];
        && row.cls == Features(t, topN)[j]
        && 0.0 <= row.phi <= 1.0
        && (row.prevalence == 0.0 ==> row.phi == 0.0)
    {
      ShapleyRowAt(t, threshold, topN, j);
    }
  }

  /** shapley_pattern_contributions: each of the top_n classes by prevalence with its
      Shapley contribution to MDR, largest contribution first. */
  method ShapleyPatternContributions(t: ClassTable, threshold: int, topN: int) returns (out: seq<ShapleyRow>)
    requires ClassTableValid(t) && Distinct(t.classes)
    ensures multiset(out) == multiset(ShapleyRows(t, threshold, topN))
    ensures SortedBy(out, PhiDesc)
    ensures var feats := Features(t, topN);
      PhiTotal(out) == Value(SumOf(FeaturePrevalence(t, feats), feats), threshold) - Value(0.0, threshold)
  {
    var means := MeanMap(t);
    ByMeanIsTotalPreorder(means);
    var ranked := SortBy(t.classes, ByMean(means));
    assert |ranked| == |multiset(ranked)| == |t.classes|;
    var feats := ranked[..HeadCount(|ranked|, topN)];
    assert feats == Features(t, topN);
    FeaturesMeaning(t, topN);
    if feats == [] {
      return [];
    }
    var prev := PrevalenceMap(t);
    var p := map x | x in feats && x in prev :: prev[x];
    var rows := FeatureRows(p, feats, threshold);
    PhiDescIsTotalPreorder();
    out := SortBy(rows, PhiDesc);
    ShapleyEfficiency(p, feats, threshold);
    PhiTotalPermutation(out, rows);
  }

  // ---------------------------------------------------------------------------
  // Efficiency: the contributions add up to v(feats) - v({})

  /** A quantity attached to a coalition, given its size u, the number z of features it
      leaves out and its total prevalence. */
  type Summand = (nat, nat, real) -> real

  /** The sum of g over the coalitions drawn from s, one per sub-list of s, each joined to
      u features already in, z already out and a prevalence sigma already gathered. */
  function CoalitionSum(p: map<string, real>, s: seq<string>, u: nat, z: nat, sigma: real, g: Summand): real {
    if s == [] then g(u, z, sigma)
    else CoalitionSum(p, s[1..], u + 1, z, sigma + Lookup(p, s[0]), g)
         + CoalitionSum(p, s[1..], u, z + 1, sigma, g)
  }

  /** The Shapley weight of a coalition of u of the other n - 1 features; 0 past them. */
  function CoalitionWeight(n: nat, u: nat): real {
    if u < n then ShapWeight(n, u) else 0.0
  }

  /** The weighted marginal contribution of f to a coalition. */
  function Gain(p: map<string, real>, f: string, n: nat, threshold: int): Summand {
    (u: nat, z: nat, sigma: real) => CoalitionWeight(n, u) * (Value(sigma + Lookup(p, f), threshold) - Value(sigma, threshold))
  }

  /** The weighted value of a coalition joined by f. */
  function GainWith(p: map<string, real>, f: string, n: nat, threshold: int): Summand {
    (u: nat, z: nat, sigma: real) => CoalitionWeight(n, u) * Value(sigma + Lookup(p, f), threshold)
  }

  /** The weighted value of a coalition, as the one another feature joins. */
  function Weighted(n: nat, threshold: int): Summand {
    (u: nat, z: nat, sigma: real) => CoalitionWeight(n, u) * Value(sigma, threshold)
  }

  /** The weighted value of a coalition with more than u0 members, as the one its last member
      joined. */
  function Joined(u0: nat, n: nat, threshold: int): Summand {
    (u: nat, z: nat, sigma: real) => if u > u0 then CoalitionWeight(n, u - 1) * Value(sigma, threshold) else 0.0
  }

  /** How often the value of a coalition counts, net, in the marginal contributions of the
      features not fixed yet: once for each such member, as the coalition that member joins,
      and minus once for each such outsider, as the coalition that outsider joins. u0 and z0
      are the members and outsiders fixed already. */
  function BalanceCoef(u0: nat, z0: nat, n: nat, u: nat, z: nat): real {
    (if u > u0 then (u - u0) as real * CoalitionWeight(n, u - 1) else 0.0) - (z - z0) as real * CoalitionWeight(n, u)
  }

  function Balance(u0: nat, z0: nat, n: nat, threshold: int): Summand {
    (u: nat, z: nat, sigma: real) => BalanceCoef(u0, z0, n, u, z) * Value(sigma, threshold)
  }

  /** The value of the grand coalition, less the value of the empty one. */
  function Ends(threshold: int): Summand {
    (u: nat, z: nat, sigma: real) =>
      if z == 0 then Value(sigma, threshold) else if u == 0 then -Value(sigma, threshold) else 0.0
  }

  /** g on the coalitions of exactly r members only. */
  function OfSize(g: Summand, r: nat): Summand {
    (u: nat, z: nat, sigma: real) => if u == r then g(u, z, sigma) else 0.0
  }

  /** g on the coalitions of fewer than m members only. */
  function Below(g: Summand, m: nat): Summand {
    (u: nat, z: nat, sigma: real) => if u < m then g(u, z, sigma) else 0.0
  }

  /** The marginal contributions of the features fs, each over the coalitions of the other
      features of all. */
  function GainTotal(p: map<string, real>, fs: seq<string>, all: seq<string>, u: nat, z: nat, sigma: real,
                     n: nat, threshold: int): real {
    if fs == [] then 0.0
    else CoalitionSum(p, Others(all, fs[0]), u, z, sigma, Gain(p, fs[0], n, threshold))
         + GainTotal(p, fs[1..], all, u, z, sigma, n, threshold)
  }

  /** The sum of the contributions of the rows. */
  function PhiTotal(rows: seq<ShapleyRow>): real {
    if rows == [] then 0.0 else rows[0].phi + PhiTotal(rows[1..])
  }

  /** Summands that agree on every coalition reachable from s have the same sum. */
  lemma {:induction false} CoalitionSumAgree(p: map<string, real>, s: seq<string>, u: nat, z: nat, sigma: real,
                                             g1: Summand, g2: Summand, t: nat)
    requires u + z + |s| == t
    requires forall u': nat, z': nat, x: real :: u' + z' == t ==> g1(u', z', x) == g2(u', z', x)
    ensures CoalitionSum(p, s, u, z, sigma, g1) == CoalitionSum(p, s, u, z, sigma, g2)
  {
    if s != [] {
      CoalitionSumAgree(p, s[1..], u + 1, z, sigma + Lookup(p, s[0]), g1, g2, t);
      CoalitionSumAgree(p, s[1..], u, z + 1, sigma, g1, g2, t);
    }
  }

  /** A summand that vanishes on every coalition of at least lo members sums to 0. */
  lemma {:induction false} CoalitionSumZero(p: map<string, real>, s: seq<string>, u: nat, z: nat, sigma: real,
                                            g: Summand, lo: nat)
    requires u >= lo
    requires forall u': nat, z': nat, x: real :: u' >= lo ==> g(u', z', x) == 0.0
    ensures CoalitionSum(p, s, u, z, sigma, g) == 0.0
  {
    if s != [] {
      CoalitionSumZero(p, s[1..], u + 1, z, sigma + Lookup(p, s[0]), g, lo);
      CoalitionSumZero(p, s[1..], u, z + 1, sigma, g, lo);
    }
  }

  lemma {:induction false} CoalitionSumAdd(p: map<string, real>, s: seq<string>, u: nat, z: nat, sigma: real,
                                           g: Summand, g1: Summand, g2: Summand)
    requires forall u': nat, z': nat, x: real :: g(u', z', x) == g1(u', z', x) + g2(u', z', x)
    ensures CoalitionSum(p, s, u, z, sigma, g)
         == CoalitionSum(p, s, u, z, sigma, g1) + CoalitionSum(p, s, u, z, sigma, g2)
  {
    if s != [] {
      CoalitionSumAdd(p, s[1..], u + 1, z, sigma + Lookup(p, s[0]), g, g1, g2);
      CoalitionSumAdd(p, s[1..], u, z + 1, sigma, g, g1, g2);
    }
  }

  lemma {:induction false} CoalitionSumSub(p: map<string, real>, s: seq<string>, u: nat, z: nat, sigma: real,
                                           g: Summand, g1: Summand, g2: Summand)
    requires forall u': nat, z': nat, x: real :: g(u', z', x) == g1(u', z', x) - g2(u', z', x)
    ensures CoalitionSum(p, s, u, z, sigma, g)
         == CoalitionSum(p, s, u, z, sigma, g1) - CoalitionSum(p, s, u, z, sigma, g2)
  {
    if s != [] {
      CoalitionSumSub(p, s[1..], u + 1, z, sigma + Lookup(p, s[0]), g, g1, g2);
      CoalitionSumSub(p, s[1..], u, z + 1, sigma, g, g1, g2);
    }
  }

  /** Starting du members, dz outsiders and a prevalence a further on is summing a summand
      shifted by them. */
  lemma {:induction false} CoalitionSumShift(p: map<string, real>, s: seq<string>, u: nat, z: nat, sigma: real,
                                             du: nat, dz: nat, a: real, g1: Summand, g2: Summand, lo: nat)
    requires u >= lo
    requires forall u': nat, z': nat, x: real :: u' >= lo ==> g1(u' + du, z' + dz, x + a) == g2(u', z', x)
    ensures CoalitionSum(p, s, u + du, z + dz, sigma + a, g1) == CoalitionSum(p, s, u, z, sigma, g2)
  {
    if s != [] {
      var y := Lookup(p, s[0]);
      CoalitionSumShift(p, s[1..], u + 1, z, sigma + y, du, dz, a, g1, g2, lo);
      assert sigma + a + y == sigma + y + a;
      CoalitionSumShift(p, s[1..], u, z + 1, sigma, du, dz, a, g1, g2, lo);
    }
  }

  /** Of the coalitions drawn from s, only the empty one keeps the starting size u. */
  lemma {:induction false} OnlyEmptyOfSize(p: map<string, real>, s: seq<string>, u: nat, z: nat, sigma: real,
                                           g: Summand)
    ensures CoalitionSum(p, s, u, z, sigma, OfSize(g, u)) == g(u, z + |s|, sigma)
  {
    if s != [] {
      CoalitionSumZero(p, s[1..], u + 1, z, sigma + Lookup(p, s[0]), OfSize(g, u), u + 1);
      OnlyEmptyOfSize(p, s[1..], u, z + 1, sigma, g);
    }
  }

  /** The contributions of the coalitions cs of r features, each joined to a prevalence
      sigma gathered already. */
  function LayerFrom(p: map<string, real>, f: string, cs: seq<seq<string>>, n: nat, r: nat, threshold: int,
                     sigma: real): real
    requires r < n
  {
    if cs == [] then 0.0
    else ShapWeight(n, r) * (Value(sigma + SumOf(p, cs[0]) + Lookup(p, f), threshold)
                             - Value(sigma + SumOf(p, cs[0]), threshold))
         + LayerFrom(p, f, cs[1..], n, r, threshold, sigma)
  }

  lemma {:induction false} LayerFromAppend(p: map<string, real>, f: string, a: seq<seq<string>>, b: seq<seq<string>>,
                                           n: nat, r: nat, threshold: int, sigma: real)
    requires r < n
    ensures LayerFrom(p, f, a + b, n, r, threshold, sigma)
         == LayerFrom(p, f, a, n, r, threshold, sigma) + LayerFrom(p, f, b, n, r, threshold, sigma)
  {
    if a == [] {
      assert a + b == b;
    } else {
      assert (a + b)[0] == a[0] && (a + b)[1..] == a[1..] + b;
      LayerFromAppend(p, f, a[1..], b, n, r, threshold, sigma);
    }
  }

  /** Putting y in front of every coalition adds its prevalence to each. */
  lemma {:induction false} LayerFromPrepend(p: map<string, real>, f: string, y: string, cs: seq<seq<string>>,
                                            n: nat, r: nat, threshold: int, sigma: real)
    requires r < n
    ensures LayerFrom(p, f, PrependAll(y, cs), n, r, threshold, sigma)
         == LayerFrom(p, f, cs, n, r, threshold, sigma + Lookup(p, y))
  {
    if cs != [] {
      var c := [y] + cs[0];
      assert c[0] == y && c[1..] == cs[0];
      assert sigma + SumOf(p, c) == sigma + Lookup(p, y) + SumOf(p, cs[0]);
      LayerFromPrepend(p, f, y, cs[1..], n, r, threshold, sigma);
    }
  }

  lemma {:induction false} LayerSumFrom(p: map<string, real>, f: string, cs: seq<seq<string>>, n: nat, r: nat,
                                        threshold: int)
    requires r < n
    ensures LayerSum(p, f, cs, n, r, threshold) == LayerFrom(p, f, cs, n, r, threshold, 0.0)
  {
    if cs != [] {
      var init, last := cs[..|cs| - 1], cs[|cs| - 1];
      LayerSumFrom(p, f, init, n, r, threshold);
      assert cs == init + [last];
      LayerFromAppend(p, f, init, [last], n, r, threshold, 0.0);
      assert 0.0 + SumOf(p, last) == SumOf(p, last);
    }
  }

  /** The single combination of none of s is the empty coalition. */
  lemma LayerOfNone(p: map<string, real>, f: string, s: seq<string>, u: nat, z: nat, sigma: real, n: nat,
                    threshold: int)
    requires u < n
    ensures LayerFrom(p, f, Combinations(s, 0), n, u, threshold, sigma)
         == CoalitionSum(p, s, u, z, sigma, OfSize(Gain(p, f, n, threshold), u))
  {
    var g, e: seq<string> := Gain(p, f, n, threshold), [];
    assert Combinations(s, 0) == [e];
    assert sigma + SumOf(p, e) == sigma;
    var d := ShapWeight(n, u) * (Value(sigma + Lookup(p, f), threshold) - Value(sigma, threshold));
    assert LayerFrom(p, f, [e], n, u, threshold, sigma) == d + LayerFrom(p, f, [], n, u, threshold, sigma);
    OnlyEmptyOfSize(p, s, u, z, sigma, g);
    assert g(u, z + |s|, sigma) == d;
  }

  /** The combinations of k of s, joined to u members already in, are the coalitions drawn
      from s that reach u + k members. */
  lemma {:induction false} LayerAsCoalitions(p: map<string, real>, f: string, s: seq<string>, k: nat, u: nat, z: nat,
                                             sigma: real, n: nat, r: nat, threshold: int)
    requires r < n && u + k == r
    ensures LayerFrom(p, f, Combinations(s, k), n, r, threshold, sigma)
         == CoalitionSum(p, s, u, z, sigma, OfSize(Gain(p, f, n, threshold), r))
    decreases |s|
  {
    if k == 0 {
      LayerOfNone(p, f, s, u, z, sigma, n, threshold);
    } else if s == [] {
      assert OfSize(Gain(p, f, n, threshold), r)(u, z, sigma) == 0.0;
    } else {
      LayerStep(p, f, s, k, u, z, sigma, n, r, threshold);
    }
  }

  lemma {:induction false} LayerStep(p: map<string, real>, f: string, s: seq<string>, k: nat, u: nat, z: nat,
                                     sigma: real, n: nat, r: nat, threshold: int)
    requires r < n && u + k == r && k > 0 && s != []
    ensures LayerFrom(p, f, Combinations(s, k), n, r, threshold, sigma)
         == CoalitionSum(p, s, u, z, sigma, OfSize(Gain(p, f, n, threshold), r))
    decreases |s|, 0
  {
    var y, rest := s[0], s[1..];
    var with, without := Combinations(rest, k - 1), Combinations(rest, k);
    assert Combinations(s, k) == PrependAll(y, with) + without;
    LayerFromAppend(p, f, PrependAll(y, with), without, n, r, threshold, sigma);
    LayerFromPrepend(p, f, y, with, n, r, threshold, sigma);
    LayerAsCoalitions(p, f, rest, k - 1, u + 1, z, sigma + Lookup(p, y), n, r, threshold);
    LayerAsCoalitions(p, f, rest, k, u, z + 1, sigma, n, r, threshold);
  }

  /** The loop over the sizes below size sums the contributions of the coalitions of fewer
      than size members. */
  lemma {:induction false} UpToAsCoalitions(p: map<string, real>, f: string, others: seq<string>, n: nat,
                                            threshold: int, size: nat)
    requires size <= n
    ensures ShapleyUpTo(p, f, others, n, threshold, size)
         == CoalitionSum(p, others, 0, 0, 0.0, Below(Gain(p, f, n, threshold), size))
  {
    var g := Gain(p, f, n, threshold);
    if size == 0 {
      forall u: nat, z: nat, x: real ensures Below(g, 0)(u, z, x) == 0.0 {
      }
      CoalitionSumZero(p, others, 0, 0, 0.0, Below(g, 0), 0);
    } else {
      var r := size - 1;
      UpToAsCoalitions(p, f, others, n, threshold, r);
      assert LayerSum(p, f, Combinations(others, r), n, r, threshold)
          == CoalitionSum(p, others, 0, 0, 0.0, OfSize(g, r)) by {
        LayerSumFrom(p, f, Combinations(others, r), n, r, threshold);
        LayerAsCoalitions(p, f, others, r, 0, 0, 0.0, n, r, threshold);
      }
      BelowSplit(p, others, g, r);
    }
  }

  /** The coalitions below r + 1 members are those below r and those of exactly r. */
  lemma BelowSplit(p: map<string, real>, s: seq<string>, g: Summand, r: nat)
    ensures CoalitionSum(p, s, 0, 0, 0.0, Below(g, r + 1))
         == CoalitionSum(p, s, 0, 0, 0.0, Below(g, r)) + CoalitionSum(p, s, 0, 0, 0.0, OfSize(g, r))
  {
    forall u: nat, z: nat, x: real ensures Below(g, r + 1)(u, z, x) == Below(g, r)(u, z, x) + OfSize(g, r)(u, z, x) {
    }
    CoalitionSumAdd(p, s, 0, 0, 0.0, Below(g, r + 1), Below(g, r), OfSize(g, r));
  }

  /** The Shapley value of f is the weighted sum of its marginal contributions to all the
      coalitions of the other features. */
  lemma ShapleyAsCoalitions(p: map<string, real>, feats: seq<string>, f: string, threshold: int)
    requires f in feats
    ensures ShapleyValue(p, feats, f, threshold)
         == CoalitionSum(p, Others(feats, f), 0, 0, 0.0, Gain(p, f, |feats|, threshold))
  {
    var others, g := Others(feats, f), Gain(p, f, |feats|, threshold);
    UpToAsCoalitions(p, f, others, |feats|, threshold, |others| + 1);
    CoalitionSumAgree(p, others, 0, 0, 0.0, Below(g, |others| + 1), g, |others|);
  }

  /** Putting y, none of fs, in front of all puts it in every coalition or out of it. */
  lemma {:induction false} GainTotalSplit(p: map<string, real>, fs: seq<string>, y: string, rest: seq<string>,
                                          u: nat, z: nat, sigma: real, n: nat, threshold: int)
    requires y !in fs
    ensures GainTotal(p, fs, [y] + rest, u, z, sigma, n, threshold)
         == GainTotal(p, fs, rest, u + 1, z, sigma + Lookup(p, y), n, threshold)
          + GainTotal(p, fs, rest, u, z + 1, sigma, n, threshold)
  {
    if fs != [] {
      var f := fs[0];
      OthersCons(y, rest, f);
      CoalitionSumCons(p, y, Others(rest, f), u, z, sigma, Gain(p, f, n, threshold));
      GainTotalSplit(p, fs[1..], y, rest, u, z, sigma, n, threshold);
    }
  }

  lemma OthersCons(y: string, rest: seq<string>, f: string)
    requires y != f
    ensures Others([y] + rest, f) == [y] + Others(rest, f)
  {
    assert ([y] + rest)[0] == y && ([y] + rest)[1..] == rest;
  }

  lemma CoalitionSumCons(p: map<string, real>, y: string, s: seq<string>, u: nat, z: nat, sigma: real, g: Summand)
    ensures CoalitionSum(p, [y] + s, u, z, sigma, g)
         == CoalitionSum(p, s, u + 1, z, sigma + Lookup(p, y), g) + CoalitionSum(p, s, u, z + 1, sigma, g)
  {
    assert ([y] + s)[0] == y && ([y] + s)[1..] == s;
  }

  /** Added over the features of all, the marginal contributions count the value of every
      coalition as often as Balance says. */
  lemma {:induction false} GainsBalance(p: map<string, real>, all: seq<string>, u0: nat, z0: nat, sigma: real,
                                        n: nat, threshold: int)
    requires Distinct(all)
    ensures GainTotal(p, all, all, u0, z0, sigma, n, threshold)
         == CoalitionSum(p, all, u0, z0, sigma, Balance(u0, z0, n, threshold))
  {
    if all != [] {
      var y, rest := all[0], all[1..];
      DistinctTail(all);
      assert all == [y] + rest;
      GainTotalUnfold(p, y, rest, u0, z0, sigma, n, threshold);
      BalanceUnfold(p, all, u0, z0, sigma, n, threshold);
      GainsBalance(p, rest, u0 + 1, z0, sigma + Lookup(p, y), n, threshold);
      GainsBalance(p, rest, u0, z0 + 1, sigma, n, threshold);
    }
  }

  /** The first feature's contributions, then the others' with it in and with it out. */
  lemma GainTotalUnfold(p: map<string, real>, y: string, rest: seq<string>, u0: nat, z0: nat, sigma: real, n: nat,
                        threshold: int)
    requires y !in rest
    ensures GainTotal(p, [y] + rest, [y] + rest, u0, z0, sigma, n, threshold)
         == CoalitionSum(p, rest, u0, z0, sigma, Gain(p, y, n, threshold))
          + GainTotal(p, rest, rest, u0 + 1, z0, sigma + Lookup(p, y), n, threshold)
          + GainTotal(p, rest, rest, u0, z0 + 1, sigma, n, threshold)
  {
    var all := [y] + rest;
    assert all[0] == y && all[1..] == rest;
    OthersWithout(rest, y);
    assert Others(all, y) == rest;
    GainTotalSplit(p, rest, y, rest, u0, z0, sigma, n, threshold);
  }

  /** The value of a coalition with the first feature in is counted once more than with the
      first feature fixed in, and once less with it out: together the first feature's
      contributions. */
  lemma BalanceUnfold(p: map<string, real>, all: seq<string>, u0: nat, z0: nat, sigma: real, n: nat, threshold: int)
    requires all != []
    ensures var y, rest := all[0], all[1..];
      CoalitionSum(p, all, u0, z0, sigma, Balance(u0, z0, n, threshold))
      == CoalitionSum(p, rest, u0, z0, sigma, Gain(p, y, n, threshold))
       + CoalitionSum(p, rest, u0 + 1, z0, sigma + Lookup(p, y), Balance(u0 + 1, z0, n, threshold))
       + CoalitionSum(p, rest, u0, z0 + 1, sigma, Balance(u0, z0 + 1, n, threshold))
  {
    var y, rest := all[0], all[1..];
    BalanceIn(p, rest, u0, z0, sigma + Lookup(p, y), n, threshold);
    BalanceOut(p, rest, u0, z0, sigma, n, threshold);
    GainAsJoined(p, y, rest, u0, z0, sigma, n, threshold);
  }

  lemma BalanceIn(p: map<string, real>, s: seq<string>, u0: nat, z0: nat, sigma: real, n: nat, threshold: int)
    ensures CoalitionSum(p, s, u0 + 1, z0, sigma, Balance(u0, z0, n, threshold))
         == CoalitionSum(p, s, u0 + 1, z0, sigma, Balance(u0 + 1, z0, n, threshold))
          + CoalitionSum(p, s, u0 + 1, z0, sigma, Joined(u0, n, threshold))
  {
    var bal, joined := Balance(u0, z0, n, threshold), Joined(u0, n, threshold);
    forall u: nat, z: nat, x: real ensures bal(u, z, x) == Balance(u0 + 1, z0, n, threshold)(u, z, x) + joined(u, z, x) {
      BalanceStepIn(u0, z0, n, threshold, u, z, x);
    }
    CoalitionSumAdd(p, s, u0 + 1, z0, sigma, bal, Balance(u0 + 1, z0, n, threshold), joined);
  }

  lemma BalanceOut(p: map<string, real>, s: seq<string>, u0: nat, z0: nat, sigma: real, n: nat, threshold: int)
    ensures CoalitionSum(p, s, u0, z0 + 1, sigma, Balance(u0, z0, n, threshold))
         == CoalitionSum(p, s, u0, z0 + 1, sigma, Balance(u0, z0 + 1, n, threshold))
          - CoalitionSum(p, s, u0, z0, sigma, Weighted(n, threshold))
  {
    var bal, weighted := Balance(u0, z0, n, threshold), Weighted(n, threshold);
    forall u: nat, z: nat, x: real ensures bal(u, z, x) == Balance(u0, z0 + 1, n, threshold)(u, z, x) - weighted(u, z, x) {
      BalanceStepOut(u0, z0, n, threshold, u, z, x);
    }
    CoalitionSumSub(p, s, u0, z0 + 1, sigma, bal, Balance(u0, z0 + 1, n, threshold), weighted);
    forall u: nat, z: nat, x: real | u >= 0 ensures weighted(u + 0, z + 1, x + 0.0) == weighted(u, z, x) {
    }
    CoalitionSumShift(p, s, u0, z0, sigma, 0, 1, 0.0, weighted, weighted, 0);
  }

  /** y's contributions to the coalitions of s: each coalition joined by y, less the coalition. */
  lemma GainAsJoined(p: map<string, real>, y: string, s: seq<string>, u0: nat, z0: nat, sigma: real, n: nat,
                     threshold: int)
    ensures CoalitionSum(p, s, u0, z0, sigma, Gain(p, y, n, threshold))
         == CoalitionSum(p, s, u0 + 1, z0, sigma + Lookup(p, y), Joined(u0, n, threshold))
          - CoalitionSum(p, s, u0, z0, sigma, Weighted(n, threshold))
  {
    var py := Lookup(p, y);
    var joined, weighted := Joined(u0, n, threshold), Weighted(n, threshold);
    var gain, with := Gain(p, y, n, threshold), GainWith(p, y, n, threshold);
    forall u: nat, z: nat, x: real ensures gain(u, z, x) == with(u, z, x) - weighted(u, z, x) {
      MulSub(CoalitionWeight(n, u), Value(x + py, threshold), Value(x, threshold));
    }
    CoalitionSumSub(p, s, u0, z0, sigma, gain, with, weighted);
    forall u: nat, z: nat, x: real | u >= u0 ensures joined(u + 1, z + 0, x + py) == with(u, z, x) {
    }
    CoalitionSumShift(p, s, u0, z0, sigma, 1, 0, py, joined, with, u0);
  }

  lemma MulSub(w: real, a: real, b: real)
    ensures w * (a - b) == w * a - w * b
  {
  }

  lemma MulAdd(a: real, b: real, c: real)
    ensures (a + b) * c == a * c + b * c
  {
  }

  lemma BalanceStepIn(u0: nat, z0: nat, n: nat, threshold: int, u: nat, z: nat, x: real)
    ensures Balance(u0, z0, n, threshold)(u, z, x)
         == Balance(u0 + 1, z0, n, threshold)(u, z, x) + Joined(u0, n, threshold)(u, z, x)
  {
    var j := if u > u0 then CoalitionWeight(n, u - 1) else 0.0;
    CoefStepIn(u0, z0, n, u, z);
    MulAdd(BalanceCoef(u0 + 1, z0, n, u, z), j, Value(x, threshold));
  }

  /** One member more fixed: the coalition's value counts once less. */
  lemma CoefStepIn(u0: nat, z0: nat, n: nat, u: nat, z: nat)
    ensures BalanceCoef(u0, z0, n, u, z)
         == BalanceCoef(u0 + 1, z0, n, u, z) + (if u > u0 then CoalitionWeight(n, u - 1) else 0.0)
  {
    var w1 := if u > 0 then CoalitionWeight(n, u - 1) else 0.0;
    CoefAlgebra(u0, u, w1, (z - z0) as real * CoalitionWeight(n, u));
  }

  lemma SuccTimes(a: int, w: real)
    ensures a as real * w == (a - 1) as real * w + w
  {
  }

  lemma CoefAlgebra(u0: int, u: int, w: real, o: real)
    ensures (if u > u0 then (u - u0) as real * w else 0.0) - o
         == ((if u > u0 + 1 then (u - (u0 + 1)) as real * w else 0.0) - o) + (if u > u0 then w else 0.0)
  {
    if u > u0 {
      SuccTimes(u - u0, w);
    }
  }

  lemma BalanceStepOut(u0: nat, z0: nat, n: nat, threshold: int, u: nat, z: nat, x: real)
    ensures Balance(u0, z0, n, threshold)(u, z, x)
         == Balance(u0, z0 + 1, n, threshold)(u, z, x) - Weighted(n, threshold)(u, z, x)
  {
    var v, w := Value(x, threshold), CoalitionWeight(n, u);
    var m := if u > u0 then (u - u0) as real * CoalitionWeight(n, u - 1) else 0.0;
    var k := (z - (z0 + 1)) as real;
    assert (z - z0) as real == k + 1.0;
    assert BalanceCoef(u0, z0, n, u, z) == m - (k + 1.0) * w;
    assert BalanceCoef(u0, z0 + 1, n, u, z) == m - k * w;
    StepAlgebra(-k, w, m, -v);
  }

  /** ((k + 1) w - o) v == (k w - o) v + w v */
  lemma StepAlgebra(k: real, w: real, o: real, v: real)
    ensures ((k + 1.0) * w - o) * v == (k * w - o) * v + w * v
  {
  }

  /** A coalition of u of n features, 0 < u < n, is joined by each of its u members with
      weight w(u - 1) and joins each of the n - u others with weight w(u): the two agree. */
  lemma WeightBalance(n: nat, u: nat)
    requires 0 < u < n
    ensures u as real * ShapWeight(n, u - 1) == (n - u) as real * ShapWeight(n, u)
  {
    var a, b, c, d, m := Factorial(u - 1), Factorial(n - u), Factorial(n - u - 1), Factorial(u), Factorial(n);
    assert n - (u - 1) - 1 == n - u;
    WeightAlgebra(u, n - u, a, b, c, d, m, ShapWeight(n, u - 1), ShapWeight(n, u));
  }

  /** k a b / m == l d c / m when d == k a and b == l c. */
  lemma WeightAlgebra(k: int, l: int, a: int, b: int, c: int, d: int, m: int, x: real, y: real)
    requires d == k * a && b == l * c && m > 0
    requires x == (a * b) as real / m as real && y == (d * c) as real / m as real
    ensures k as real * x == l as real * y
  {
    assert k * (a * b) == (k * a) * b == d * b;
    assert l * (d * c) == d * (l * c) == d * b;
    ScaleRatio(k, a * b, m);
    ScaleRatio(l, d * c, m);
  }

  lemma ScaleRatio(k: int, x: int, m: int)
    requires m > 0
    ensures k as real * (x as real / m as real) == (k * x) as real / m as real
  {
  }

  /** A lone feature's weight: 1 / n for the empty coalition and for all the others. */
  lemma EndWeight(n: nat, r: nat)
    requires 0 < n && (r == 0 || r == n - 1)
    ensures n as real * ShapWeight(n, r) == 1.0
  {
    if r == 0 {
      assert Binom(n - 1, 0) == 1;
    } else {
      BinomAll(n - 1);
    }
    LayerWeight(n, r, 1, ShapWeight(n, r));
  }

  /** With no member or outsider fixed, only the grand and the empty coalitions count. */
  lemma BalanceAtEnds(n: nat, u: nat, z: nat)
    requires n > 0 && u + z == n
    ensures BalanceCoef(0, 0, n, u, z) == if z == 0 then 1.0 else if u == 0 then -1.0 else 0.0
  {
    if z == 0 {
      EndWeight(n, n - 1);
      assert CoalitionWeight(n, u - 1) == ShapWeight(n, n - 1);
    } else if u == 0 {
      EndWeight(n, 0);
      assert CoalitionWeight(n, u) == ShapWeight(n, 0);
    } else {
      WeightBalance(n, u);
      assert CoalitionWeight(n, u - 1) == ShapWeight(n, u - 1) && CoalitionWeight(n, u) == ShapWeight(n, u);
    }
  }

  /** Over all the coalitions of n features, Balance(0, 0) is the grand coalition's value less
      the empty one's. */
  lemma BalanceIsEnds(p: map<string, real>, feats: seq<string>, threshold: int)
    requires feats != []
    ensures CoalitionSum(p, feats, 0, 0, 0.0, Balance(0, 0, |feats|, threshold))
         == CoalitionSum(p, feats, 0, 0, 0.0, Ends(threshold))
  {
    var n := |feats|;
    forall u: nat, z: nat, x: real | u + z == n
      ensures Balance(0, 0, n, threshold)(u, z, x) == Ends(threshold)(u, z, x)
    {
      BalanceAtEnds(n, u, z);
    }
    CoalitionSumAgree(p, feats, 0, 0, 0.0, Balance(0, 0, n, threshold), Ends(threshold), n);
  }

  lemma {:induction false} EndsSum(p: map<string, real>, s: seq<string>, u: nat, z: nat, sigma: real, threshold: int)
    requires u + z + |s| >= 1
    ensures CoalitionSum(p, s, u, z, sigma, Ends(threshold))
         == (if z == 0 then Value(sigma + SumOf(p, s), threshold) else 0.0)
          - (if u == 0 then Value(sigma, threshold) else 0.0)
  {
    if s == [] {
      assert sigma + SumOf(p, s) == sigma;
    } else {
      var y := Lookup(p, s[0]);
      EndsSum(p, s[1..], u + 1, z, sigma + y, threshold);
      EndsSum(p, s[1..], u, z + 1, sigma, threshold);
      assert sigma + y + SumOf(p, s[1..]) == sigma + SumOf(p, s);
    }
  }

  lemma {:induction false} RowsGainTotal(p: map<string, real>, feats: seq<string>, threshold: int, k: nat)
    requires k <= |feats|
    ensures PhiTotal(RowsOf(p, feats, threshold)[k..])
         == GainTotal(p, feats[k..], feats, 0, 0, 0.0, |feats|, threshold)
    decreases |feats| - k
  {
    if k < |feats| {
      var rows := RowsOf(p, feats, threshold);
      assert rows[k..][0] == rows[k] && rows[k..][1..] == rows[k + 1..];
      assert feats[k..][0] == feats[k] && feats[k..][1..] == feats[k + 1..];
      ShapleyAsCoalitions(p, feats, feats[k], threshold);
      RowsGainTotal(p, feats, threshold, k + 1);
    }
  }

  lemma {:induction false} PhiTotalAppend(a: seq<ShapleyRow>, b: seq<ShapleyRow>)
    ensures PhiTotal(a + b) == PhiTotal(a) + PhiTotal(b)
  {
    if a == [] {
      assert a + b == b;
    } else {
      assert (a + b)[0] == a[0] && (a + b)[1..] == a[1..] + b;
      PhiTotalAppend(a[1..], b);
    }
  }

  /** Reordering the rows keeps their total. */
  lemma {:induction false} PhiTotalPermutation(a: seq<ShapleyRow>, b: seq<ShapleyRow>)
    requires multiset(a) == multiset(b)
    ensures PhiTotal(a) == PhiTotal(b)
    decreases |a|
  {
    if a != [] {
      var x := a[0];
      assert x in multiset(b);
      var j :| 0 <= j < |b| && b[j] == x;
      var b' := b[..j] + b[j + 1..];
      assert b == b[..j] + [x] + b[j + 1..];
      assert a == [x] + a[1..];
      assert multiset(b') == multiset(b) - multiset{x};
      assert multiset(a[1..]) == multiset(a) - multiset{x};
      PhiTotalPermutation(a[1..], b');
      PhiTotalAppend(b[..j] + [x], b[j + 1..]);
      PhiTotalAppend(b[..j], [x]);
      PhiTotalAppend(b[..j], b[j + 1..]);
    }
  }

  /** Efficiency: the contributions of the features add up to the MDR indicator of all of
      them together, less that of none of them. */
  lemma ShapleyEfficiency(p: map<string, real>, feats: seq<string>, threshold: int)
    requires Distinct(feats)
    ensures PhiTotal(RowsOf(p, feats, threshold)) == Value(SumOf(p, feats), threshold) - Value(0.0, threshold)
  {
    var n := |feats|;
    if n > 0 {
      RowsGainTotal(p, feats, threshold, 0);
      assert RowsOf(p, feats, threshold)[0..] == RowsOf(p, feats, threshold) && feats[0..] == feats;
      GainsBalance(p, feats, 0, 0, 0.0, n, threshold);
      BalanceIsEnds(p, feats, threshold);
      EndsSum(p, feats, 0, 0, 0.0, threshold);
      assert 0.0 + SumOf(p, feats) == SumOf(p, feats);
    }
  }
}
