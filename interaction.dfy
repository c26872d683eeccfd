/** Interaction information (co-information) of feature subsets of the class matrix:
    for every subset of three or more features whose joint prevalence reaches the support
    bound, the alternating inclusion-exclusion sum of the joint entropies of its parts. */
module Interaction {
  import opened Wrappers
  import opened Combinatorics
  import opened Ordering
  import opened Classification

  /** The joint Shannon entropy, in bits, of a list of columns taken together. It is a
      parameter of the model: its floating-point evaluation is not modelled. */
  type Entropy = seq<seq<Call>> -> real

  datatype Kind = Synergistic | Redundant | Independent

  /** One output row: the features, the order (their number), the co-information, its
      kind and the joint prevalence (None where the mean over no isolates is NaN). */
  datatype InteractionRow = InteractionRow(
    features: seq<string>, order: nat, ii: real, kind: Kind, jointPrevalence: Option<real>)

  /** The magnitude below which a co-information value counts as independent. */
  const KindThreshold: real := 0.01

  /** The kind of a co-information value: exactly one of the three, by sign and magnitude. */
  function KindOf(ii: real): (k: Kind)
    ensures k == Synergistic ==> ii > 0.0
    ensures k == Redundant ==> ii < 0.0
    ensures k == Independent <==> -KindThreshold <= ii <= KindThreshold
    ensures ii == 0.0 ==> k == Independent
  {
    if ii > KindThreshold then Synergistic
    else if ii < -KindThreshold then Redundant
    else Independent
  }

  // ---------------------------------------------------------------------------
  // Columns and joint prevalence

  /** Every name is a column of the table. */
  predicate NamesIn(t: ClassTable, names: seq<string>) {
    forall i :: 0 <= i < |names| ==> names[i] in t.classes
  }

  /** The column of the table named f. */
  function Column(t: ClassTable, f: string): (c: seq<Call>)
    requires ClassTableValid(t) && f in t.classes
    ensures |c| == |t.rows|
  {
    var j := IndexOf(t.classes, f);
    seq(|t.rows|, r requires 0 <= r < |t.rows| => t.rows[r][j])
  }

  /** The columns named by names, in order. */
  function Columns(t: ClassTable, names: seq<string>): (cs: seq<seq<Call>>)
    requires ClassTableValid(t) && NamesIn(t, names)
    ensures |cs| == |names|
    ensures forall i :: 0 <= i < |names| ==> cs[i] == Column(t, names[i])
  {
    if names == [] then [] else Columns(t, names[..|names| - 1]) + [Column(t, names[|names| - 1])]
  }

  /** Isolate r is positive on every named column (its row sum over them equals their number). */
  predicate AllPositive(t: ClassTable, names: seq<string>, r: nat)
    requires ClassTableValid(t) && NamesIn(t, names) && r < |t.rows|
  {
    forall i :: 0 <= i < |names| ==> t.rows[r][IndexOf(t.classes, names[i])] == Some(true)
  }

  /** How many of the first m isolates are positive on every named column. */
  function PositiveCount(t: ClassTable, names: seq<string>, m: nat): (k: nat)
    requires ClassTableValid(t) && NamesIn(t, names) && m <= |t.rows|
    ensures k <= m
  {
    if m == 0 then 0
    else PositiveCount(t, names, m - 1) + (if AllPositive(t, names, m - 1) then 1 else 0)
  }

  /** The fraction of isolates positive on every named column; None (NaN) for no isolates. */
  function JointPrevalence(t: ClassTable, names: seq<string>): (p: Option<real>)
    requires ClassTableValid(t) && NamesIn(t, names)
    ensures p.None? <==> |t.rows| == 0
    ensures p.Some? ==> 0.0 <= p.value <= 1.0
    ensures p.Some? ==> (p.value == 1.0 <==> PositiveCount(t, names, |t.rows|) == |t.rows|)
  {
    if |t.rows| == 0 then None
    else Some(PositiveCount(t, names, |t.rows|) as real / |t.rows| as real)
  }

  /** A subset is skipped when its joint prevalence is below the support bound; a NaN
      prevalence compares false and is kept. */
  predicate Skipped(p: Option<real>, minSupport: real) {
    p.Some? && p.value < minSupport
  }

  // ---------------------------------------------------------------------------
  // Co-information by inclusion-exclusion

  /** Every index is a position of a list of n columns. */
  predicate Within(idx: seq<nat>, n: nat) {
    forall i :: 0 <= i < |idx| ==> idx[i] < n
  }

  /** 0, 1, ..., n - 1 (range(n)). */
  function Range(n: nat): (r: seq<nat>)
    ensures |r| == n && forall i :: 0 <= i < n ==> r[i] == i
  {
    if n == 0 then [] else Range(n - 1) + [n - 1]
  }

  /** The columns at the given positions ([cols[i] for i in idx]); a position outside the
      list, which no caller passes, gives an empty column. */
  function Pick(cols: seq<seq<Call>>, idx: seq<nat>): (r: seq<seq<Call>>)
    ensures |r| == |idx|
  {
    if idx == [] then []
    else Pick(cols, idx[..|idx| - 1]) + [if idx[|idx| - 1] < |cols| then cols[idx[|idx| - 1]] else []]
  }

  /** The joint entropy of the columns at the positions of T (_joint_H of those columns). */
  function JointH(H: Entropy, cols: seq<seq<Call>>, T: seq<nat>): real {
    H(Pick(cols, T))
  }

  /** (-1)^e * x. */
  function SignOf(e: nat, x: real): real {
    if e % 2 == 0 then x else -x
  }

  lemma {:induction false} MinusOnePowParity(e: nat)
    ensures MinusOnePow(e) == if e % 2 == 0 then 1 else -1
  {
    if e > 0 {
      MinusOnePowParity(e - 1);
    }
  }

  lemma SignTimes(e: nat, h: real)
    ensures MinusOnePow(e) as real * h == SignOf(e, h)
  {
    MinusOnePowParity(e);
    var sign := MinusOnePow(e) as real;
    if e % 2 == 0 {
      assert sign == 1.0;
    } else {
      assert sign == -1.0;
    }
  }

  /** The source's term sign * H(cols at idx) is the term of idx. */
  lemma SignedTerm(H: Entropy, cols: seq<seq<Call>>, idx: seq<nat>, e: nat, sign: real)
    requires 1 <= |idx| <= |cols| && e == |cols| - |idx| && sign == MinusOnePow(e) as real
    ensures sign * JointH(H, cols, idx) == Signed(H, cols, [] + idx)
  {
    assert [] + idx == idx;
    SignTimes(e, JointH(H, cols, idx));
  }

  /** The term of a subset T of positions: (-1)^(n - |T|) H(T), and 0 for the empty subset. */
  function Signed(H: Entropy, cols: seq<seq<Call>>, T: seq<nat>): real {
    if T == [] || |T| > |cols| then 0.0
    else SignOf(|cols| - |T|, JointH(H, cols, T))
  }

  /** The reference definition: the terms of every subset of s, each added to pre, found by
      deciding for each element of s in turn whether it is left out or taken. */
  function Tree(H: Entropy, cols: seq<seq<Call>>, pre: seq<nat>, s: seq<nat>): real
    decreases |s|
  {
    if s == [] then Signed(H, cols, pre)
    else Tree(H, cols, pre, s[1..]) + Tree(H, cols, pre + [s[0]], s[1..])
  }

  /** The co-information of a list of columns: the sum over every non-empty subset T of
      (-1)^(n - |T|) times the joint entropy of T. */
  function CoInformation(H: Entropy, cols: seq<seq<Call>>): real {
    Tree(H, cols, [], Range(|cols|))
  }

  /** The terms of the subsets subs, each added to pre, summed in order. */
  function TermsOf(H: Entropy, cols: seq<seq<Call>>, pre: seq<nat>, subs: seq<seq<nat>>): real {
    if subs == [] then 0.0
    else TermsOf(H, cols, pre, subs[..|subs| - 1]) + Signed(H, cols, pre + subs[|subs| - 1])
  }

  /** The terms of the subsets of s of sizes 0 .. m - 1, size by size (the order in which the
      loops over sz and combinations(range(n), sz) visit them). */
  function UpTo(H: Entropy, cols: seq<seq<Call>>, pre: seq<nat>, s: seq<nat>, m: nat): real {
    if m == 0 then 0.0
    else UpTo(H, cols, pre, s, m - 1) + TermsOf(H, cols, pre, Combinations(s, m - 1))
  }

  lemma {:induction false} TermsAppend(H: Entropy, cols: seq<seq<Call>>, pre: seq<nat>, a: seq<seq<nat>>, b: seq<seq<nat>>)
    ensures TermsOf(H, cols, pre, a + b) == TermsOf(H, cols, pre, a) + TermsOf(H, cols, pre, b)
    decreases |b|
  {
    if b != [] {
      var b' := b[..|b| - 1];
      assert (a + b)[..|a + b| - 1] == a + b';
      TermsAppend(H, cols, pre, a, b');
    } else {
      assert a + b == a;
    }
  }

  lemma {:induction false} TermsPrepend(H: Entropy, cols: seq<seq<Call>>, pre: seq<nat>, x: nat, cs: seq<seq<nat>>)
    ensures TermsOf(H, cols, pre, PrependAll(x, cs)) == TermsOf(H, cols, pre + [x], cs)
    decreases |cs|
  {
    if cs != [] {
      var head := [x] + cs[0];
      assert PrependAll(x, cs) == [head] + PrependAll(x, cs[1..]);
      TermsAppend(H, cols, pre, [head], PrependAll(x, cs[1..]));
      TermsPrepend(H, cols, pre, x, cs[1..]);
      assert cs == [cs[0]] + cs[1..];
      TermsAppend(H, cols, pre + [x], [cs[0]], cs[1..]);
      var none: seq<seq<nat>> := [];
      assert [head][..0] == none && [cs[0]][..0] == none;
      assert pre + head == (pre + [x]) + cs[0];
    }
  }

  lemma CombinationsBeyond<T>(s: seq<T>, k: nat)
    requires k > |s|
    ensures Combinations(s, k) == []
  {
    CombinationsCount(s, k);
    BinomAbove(|s|, k);
  }

  /** Splitting the size-by-size sum on the first element of s. */
  lemma {:induction false} UpToSplit(H: Entropy, cols: seq<seq<Call>>, pre: seq<nat>, s: seq<nat>, m: nat)
    requires s != [] && m >= 1
    ensures UpTo(H, cols, pre, s, m)
         == UpTo(H, cols, pre, s[1..], m) + UpTo(H, cols, pre + [s[0]], s[1..], m - 1)
  {
    var t := s[1..];
    if m == 1 {
      assert Combinations(s, 0) == Combinations(t, 0);
    } else {
      var x, with, without := s[0], Combinations(t, m - 2), Combinations(t, m - 1);
      UpToSplit(H, cols, pre, s, m - 1);
      assert TermsOf(H, cols, pre, Combinations(s, m - 1))
          == TermsOf(H, cols, pre + [x], with) + TermsOf(H, cols, pre, without) by {
        assert Combinations(s, m - 1) == PrependAll(x, with) + without;
        TermsAppend(H, cols, pre, PrependAll(x, with), without);
        TermsPrepend(H, cols, pre, x, with);
      }
      assert UpTo(H, cols, pre, t, m) == UpTo(H, cols, pre, t, m - 1) + TermsOf(H, cols, pre, without);
      assert UpTo(H, cols, pre + [x], t, m - 1) == UpTo(H, cols, pre + [x], t, m - 2) + TermsOf(H, cols, pre + [x], with);
    }
  }

  /** Size 0 contributes the term of pre alone. */
  lemma UpToOne(H: Entropy, cols: seq<seq<Call>>, pre: seq<nat>, s: seq<nat>)
    ensures UpTo(H, cols, pre, s, 1) == Signed(H, cols, pre)
  {
    var subs := Combinations(s, 0);
    assert subs == [[]];
    var none: seq<seq<nat>> := [];
    assert subs[..0] == none;
    assert pre + subs[0] == pre;
    assert TermsOf(H, cols, pre, subs) == TermsOf(H, cols, pre, none) + Signed(H, cols, pre);
  }

  /** No subset of t has more than |t| elements. */
  lemma UpToStop(H: Entropy, cols: seq<seq<Call>>, pre: seq<nat>, t: seq<nat>, m: nat)
    requires m == |t| + 2
    ensures UpTo(H, cols, pre, t, m) == UpTo(H, cols, pre, t, m - 1)
  {
    CombinationsBeyond(t, m - 1);
    assert TermsOf(H, cols, pre, Combinations(t, m - 1)) == 0.0;
  }

  /** The sum over all sizes, split on the first element of s: the subsets without it and
      those with it. */
  lemma UpToHead(H: Entropy, cols: seq<seq<Call>>, pre: seq<nat>, s: seq<nat>)
    requires s != []
    ensures UpTo(H, cols, pre, s, |s| + 1)
         == UpTo(H, cols, pre, s[1..], |s|) + UpTo(H, cols, pre + [s[0]], s[1..], |s|)
  {
    UpToSplit(H, cols, pre, s, |s| + 1);
    UpToStop(H, cols, pre, s[1..], |s| + 1);
  }

  /** The size-by-size sum over all sizes equals the reference tree. */
  lemma {:induction false} UpToTree(H: Entropy, cols: seq<seq<Call>>, pre: seq<nat>, s: seq<nat>)
    ensures UpTo(H, cols, pre, s, |s| + 1) == Tree(H, cols, pre, s)
    decreases |s|
  {
    if s == [] {
      UpToOne(H, cols, pre, s);
    } else {
      var t := s[1..];
      UpToHead(H, cols, pre, s);
      UpToTree(H, cols, pre, t);
      UpToTree(H, cols, pre + [s[0]], t);
    }
  }

  /** The sum the source's nested loops accumulate: every non-empty subset of positions,
      size by size, each with sign (-1)^(n - size). */
  method CoInformationOf(H: Entropy, cols: seq<seq<Call>>) returns (ii: real)
    ensures ii == CoInformation(H, cols)
  {
    var n := |cols|;
    ghost var all := Range(n);
    ii := 0.0;
    UpToOne(H, cols, [], all);
    var sz := 1;
    while sz <= n
      invariant 1 <= sz <= n + 1
      invariant ii == UpTo(H, cols, [], all, sz)
    {
      ii := AddLayer(H, cols, sz, ii);
      sz := sz + 1;
    }
    UpToTree(H, cols, [], all);
  }

  /** The inner loop: the terms of the subsets of one size added to ii. */
  method AddLayer(H: Entropy, cols: seq<seq<Call>>, sz: nat, ii0: real) returns (ii: real)
    requires 1 <= sz <= |cols|
    ensures ii == ii0 + TermsOf(H, cols, [], Combinations(Range(|cols|), sz))
  {
    var n := |cols|;
    ii := ii0;
    var sign := MinusOnePow(n - sz) as real;
    var subs := Combinations(Range(n), sz);
    var j := 0;
    while j < |subs|
      invariant j <= |subs|
      invariant ii == ii0 + TermsOf(H, cols, [], subs[..j])
    {
      var idx := subs[j];
      CombinationsShape(Range(n), sz, idx);
      assert subs[..j + 1][..j] == subs[..j];
      SignedTerm(H, cols, idx, n - sz, sign);
      ii := ii + sign * JointH(H, cols, idx);
      j := j + 1;
    }
    assert subs[..j] == subs;
  }

  lemma TreeOne(H: Entropy, cols: seq<seq<Call>>, pre: seq<nat>, y: nat)
    ensures Tree(H, cols, pre, [y]) == Signed(H, cols, pre) + Signed(H, cols, pre + [y])
  {
    assert [y][1..] == [];
  }

  lemma TreeTwo(H: Entropy, cols: seq<seq<Call>>, pre: seq<nat>, x: nat, y: nat)
    ensures Tree(H, cols, pre, [x, y])
         == Signed(H, cols, pre) + Signed(H, cols, pre + [y])
            + Signed(H, cols, pre + [x]) + Signed(H, cols, pre + [x] + [y])
  {
    assert [x, y][1..] == [y];
    TreeOne(H, cols, pre, y);
    TreeOne(H, cols, pre + [x], y);
  }

  lemma PickOne(cols: seq<seq<Call>>, i: nat)
    requires i < |cols|
    ensures Pick(cols, [i]) == [cols[i]]
  {
    var T := [i];
    assert T[..0] == [];
  }

  lemma PickTwo(cols: seq<seq<Call>>, i: nat, j: nat)
    requires i < |cols| && j < |cols|
    ensures Pick(cols, [i, j]) == [cols[i], cols[j]]
  {
    var T := [i, j];
    assert T[..1] == [i];
    PickOne(cols, i);
  }

  lemma PickThree(cols: seq<seq<Call>>)
    requires |cols| == 3
    ensures Pick(cols, [0, 1, 2]) == cols
  {
    var T: seq<nat> := [0, 1, 2];
    assert T[..2] == [0, 1];
    PickTwo(cols, 0, 1);
  }

  /** For three features, the familiar expansion
      H(abc) - H(ab) - H(ac) - H(bc) + H(a) + H(b) + H(c). */
  lemma ThreeWay(H: Entropy, cols: seq<seq<Call>>)
    requires |cols| == 3
    ensures CoInformation(H, cols)
         == H(cols) - H([cols[0], cols[1]]) - H([cols[0], cols[2]]) - H([cols[1], cols[2]])
            + H([cols[0]]) + H([cols[1]]) + H([cols[2]])
  {
    var a, b, c := cols[0], cols[1], cols[2];
    assert Range(3) == [0, 1, 2];
    assert [0, 1, 2][1..] == [1, 2];
    assert [] + [1] + [2] == [1, 2] && [0] + [1] + [2] == [0, 1, 2];
    assert [] + [1] == [1] && [] + [2] == [2] && [0] + [1] == [0, 1] && [0] + [2] == [0, 2];
    TreeTwo(H, cols, [], 1, 2);
    TreeTwo(H, cols, [0], 1, 2);
    PickThree(cols);
    PickTwo(cols, 0, 1);
    PickTwo(cols, 0, 2);
    PickTwo(cols, 1, 2);
    PickOne(cols, 0);
    PickOne(cols, 1);
    PickOne(cols, 2);
    assert Signed(H, cols, []) == 0.0;
    SignedAt(H, cols, [0, 1, 2], 0, cols);
    SignedAt(H, cols, [0, 1], 1, [a, b]);
    SignedAt(H, cols, [0, 2], 1, [a, c]);
    SignedAt(H, cols, [1, 2], 1, [b, c]);
    SignedAt(H, cols, [0], 2, [a]);
    SignedAt(H, cols, [1], 2, [b]);
    SignedAt(H, cols, [2], 2, [c]);
  }

  lemma SignedAt(H: Entropy, cols: seq<seq<Call>>, T: seq<nat>, e: nat, v: seq<seq<Call>>)
    requires T != [] && |T| + e == |cols| && Pick(cols, T) == v
    ensures Signed(H, cols, T) == SignOf(e, H(v))
  {
  }

  // ---------------------------------------------------------------------------
  // Independent features

  /** The marginal entropies of the columns at the positions of T, added up. */
  function Marginals(H: Entropy, cols: seq<seq<Call>>, T: seq<nat>): real {
    if T == [] then 0.0 else Marginals(H, cols, T[..|T| - 1]) + JointH(H, cols, [T[|T| - 1]])
  }

  /** Mutually independent features: the joint entropy of every non-empty subset is the sum
      of the marginal entropies of its members. */
  ghost predicate Additive(H: Entropy, cols: seq<seq<Call>>) {
    forall T {:trigger JointH(H, cols, T)} :: T != [] && Within(T, |cols|) ==> JointH(H, cols, T) == Marginals(H, cols, T)
  }

  lemma SignedAdditive(H: Entropy, cols: seq<seq<Call>>, T: seq<nat>)
    requires Additive(H, cols) && Within(T, |cols|) && |T| <= |cols|
    ensures Signed(H, cols, T) == SignOf(|cols| - |T|, Marginals(H, cols, T))
  {
    if T != [] {
      assert JointH(H, cols, T) == Marginals(H, cols, T);
    }
  }

  /** Under independence the terms of every subset of s, with pre always taken, cancel once
      s holds two or more positions. */
  lemma {:induction false} TreeVanishes(H: Entropy, cols: seq<seq<Call>>, pre: seq<nat>, s: seq<nat>)
    requires Additive(H, cols) && Within(pre, |cols|) && Within(s, |cols|)
    requires |pre| + |s| <= |cols| && |s| >= 2
    ensures Tree(H, cols, pre, s) == 0.0
    decreases |s|
  {
    var n := |cols|;
    if |s| > 2 {
      TreeVanishes(H, cols, pre, s[1..]);
      TreeVanishes(H, cols, pre + [s[0]], s[1..]);
    } else {
      assert s == [s[0], s[1]];
      PairVanishes(H, cols, pre, s[0], s[1]);
    }
  }

  /** The four terms of pre, pre + [y], pre + [x] and pre + [x, y] cancel. */
  lemma PairVanishes(H: Entropy, cols: seq<seq<Call>>, pre: seq<nat>, x: nat, y: nat)
    requires Additive(H, cols) && Within(pre, |cols|) && x < |cols| && y < |cols|
    requires |pre| + 2 <= |cols|
    ensures Tree(H, cols, pre, [x, y]) == 0.0
  {
    TreeTwo(H, cols, pre, x, y);
    var px, py, pxy := pre + [x], pre + [y], pre + [x] + [y];
    MarginalsSnoc(H, cols, pre, x);
    MarginalsSnoc(H, cols, pre, y);
    MarginalsSnoc(H, cols, px, y);
    SignedAdditive(H, cols, pre);
    SignedAdditive(H, cols, px);
    SignedAdditive(H, cols, py);
    SignedAdditive(H, cols, pxy);
    Cancel(|cols| - |pre|, Marginals(H, cols, pre), JointH(H, cols, [x]), JointH(H, cols, [y]));
  }

  lemma MarginalsSnoc(H: Entropy, cols: seq<seq<Call>>, T: seq<nat>, x: nat)
    ensures Marginals(H, cols, T + [x]) == Marginals(H, cols, T) + JointH(H, cols, [x])
  {
    var Tx := T + [x];
    assert Tx[..|Tx| - 1] == T && Tx[|Tx| - 1] == x;
  }

  lemma Cancel(e: nat, m: real, hx: real, hy: real)
    requires e >= 2
    ensures SignOf(e, m) + SignOf(e - 1, m + hy) + SignOf(e - 1, m + hx) + SignOf(e - 2, m + hx + hy) == 0.0
  {
    if e % 2 == 0 {
      assert (e - 1) % 2 == 1 && (e - 2) % 2 == 0;
    } else {
      assert (e - 1) % 2 == 0 && (e - 2) % 2 == 1;
    }
  }

  /** Mutually independent features carry no interaction: their co-information is 0, and
      the row is classified independent. */
  lemma IndependentFeatures(H: Entropy, cols: seq<seq<Call>>)
    requires Additive(H, cols) && |cols| >= 2
    ensures CoInformation(H, cols) == 0.0
    ensures KindOf(CoInformation(H, cols)) == Independent
  {
    TreeVanishes(H, cols, [], Range(|cols|));
  }

  // ---------------------------------------------------------------------------
  // The analysis

  /** The row a kept subset produces. */
  function RowOf(t: ClassTable, H: Entropy, sub: seq<string>, order: nat): (r: InteractionRow)
    requires ClassTableValid(t) && NamesIn(t, sub)
    ensures r.features == sub && r.order == order
    ensures r.ii == CoInformation(H, Columns(t, sub)) && r.kind == KindOf(r.ii)
    ensures r.jointPrevalence == JointPrevalence(t, sub)
  {
    var ii := CoInformation(H, Columns(t, sub));
    InteractionRow(sub, order, ii, KindOf(ii), JointPrevalence(t, sub))
  }

  /** Every subset of subs names columns of t. */
  predicate AllNamesIn(t: ClassTable, subs: seq<seq<string>>) {
    forall k :: 0 <= k < |subs| ==> NamesIn(t, subs[k])
  }

  /** The rows of the subsets subs of one order that are not skipped, in order. */
  function RowsFor(t: ClassTable, H: Entropy, minSupport: real, order: nat, subs: seq<seq<string>>): seq<InteractionRow>
    requires ClassTableValid(t) && AllNamesIn(t, subs)
  {
    if subs == [] then []
    else
      var sub := subs[|subs| - 1];
      RowsFor(t, H, minSupport, order, subs[..|subs| - 1])
      + (if Skipped(JointPrevalence(t, sub), minSupport) then [] else [RowOf(t, H, sub, order)])
  }

  lemma CombinationsNamesIn(t: ClassTable, features: seq<string>, k: nat)
    requires NamesIn(t, features)
    ensures AllNamesIn(t, Combinations(features, k))
  {
    var subs := Combinations(features, k);
    forall j | 0 <= j < |subs| ensures NamesIn(t, subs[j]) {
      CombinationsShape(features, k, subs[j]);
      forall i | 0 <= i < |subs[j]| ensures subs[j][i] in t.classes {
        assert subs[j][i] in Elems(subs[j]);
      }
    }
  }

  /** The rows of orders 3 .. o, order by order, before sorting. */
  function Candidates(t: ClassTable, H: Entropy, features: seq<string>, minSupport: real, o: int): seq<InteractionRow>
    requires ClassTableValid(t) && NamesIn(t, features)
    decreases o
  {
    if o < 3 then []
    else
      CombinationsNamesIn(t, features, o);
      Candidates(t, H, features, minSupport, o - 1) + RowsFor(t, H, minSupport, o, Combinations(features, o))
  }

  function Abs(x: real): real {
    if x < 0.0 then -x else x
  }

  /** The output order: larger |II| first. */
  predicate AbsIiGe(a: InteractionRow, b: InteractionRow) {
    Abs(a.ii) >= Abs(b.ii)
  }

  lemma AbsIiGeIsTotalPreorder()
    ensures TotalPreorder(AbsIiGe)
  {
  }

  /** The analysis: for every order from 3 to maxOrder and every subset of that many
      features, the row of the subset unless its joint prevalence is below minSupport; the
      rows sorted by |II| descending. */
  method InteractionInformation(t: ClassTable, features: seq<string>, maxOrder: int, minSupport: real, H: Entropy)
    returns (rows: seq<InteractionRow>)
    requires ClassTableValid(t) && NamesIn(t, features)
    ensures multiset(rows) == multiset(Candidates(t, H, features, minSupport, maxOrder))
    ensures SortedBy(rows, AbsIiGe)
    ensures maxOrder < 3 ==> rows == []
  {
    var found := CollectRows(t, features, maxOrder, minSupport, H);
    AbsIiGeIsTotalPreorder();
    rows := SortBy(found, AbsIiGe);
  }

  /** The loop over the orders 3 .. maxOrder: the rows in the order they are appended. */
  method CollectRows(t: ClassTable, features: seq<string>, maxOrder: int, minSupport: real, H: Entropy)
    returns (found: seq<InteractionRow>)
    requires ClassTableValid(t) && NamesIn(t, features)
    ensures found == Candidates(t, H, features, minSupport, maxOrder)
  {
    found := [];
    var order := 3;
    while order <= maxOrder
      invariant 3 <= order <= (if maxOrder >= 3 then maxOrder + 1 else 3)
      invariant found == Candidates(t, H, features, minSupport, order - 1)
    {
      var subs := Combinations(features, order);
      CandidatesStep(t, H, features, minSupport, order);
      var more := RowsOfOrder(t, H, minSupport, order, subs);
      found := found + more;
      order := order + 1;
    }
  }

  lemma CandidatesStep(t: ClassTable, H: Entropy, features: seq<string>, minSupport: real, o: int)
    requires ClassTableValid(t) && NamesIn(t, features) && o >= 3
    ensures AllNamesIn(t, Combinations(features, o))
    ensures Candidates(t, H, features, minSupport, o)
         == Candidates(t, H, features, minSupport, o - 1) + RowsFor(t, H, minSupport, o, Combinations(features, o))
  {
    CombinationsNamesIn(t, features, o);
  }

  /** The loop over the subsets of one order: the rows of those not skipped, in order. */
  method RowsOfOrder(t: ClassTable, H: Entropy, minSupport: real, order: nat, subs: seq<seq<string>>)
    returns (rows: seq<InteractionRow>)
    requires ClassTableValid(t) && AllNamesIn(t, subs)
    ensures rows == RowsFor(t, H, minSupport, order, subs)
  {
    rows := [];
    var j := 0;
    while j < |subs|
      invariant j <= |subs|
      invariant rows == RowsFor(t, H, minSupport, order, subs[..j])
    {
      var sub := subs[j];
      assert subs[..j + 1][..j] == subs[..j];
      var p := JointPrevalence(t, sub);
      if !Skipped(p, minSupport) {
        var ii := CoInformationOf(H, Columns(t, sub));
        rows := rows + [InteractionRow(sub, order, ii, KindOf(ii), p)];
      }
      j := j + 1;
    }
    assert subs[..j] == subs;
  }

  /** What a row of the unsorted result is: a subset of 3 .. o features, in the order of the
      feature list, that is not skipped, with its co-information and kind. */
  lemma {:induction false} CandidatesMeaning(t: ClassTable, H: Entropy, features: seq<string>, minSupport: real, o: int, r: InteractionRow)
    requires ClassTableValid(t) && NamesIn(t, features)
    ensures r in Candidates(t, H, features, minSupport, o)
        <==> (3 <= r.order <= o && r.features in Combinations(features, r.order)
              && NamesIn(t, r.features) && !Skipped(JointPrevalence(t, r.features), minSupport)
              && r == RowOf(t, H, r.features, r.order))
    decreases o
  {
    if o >= 3 {
      CombinationsNamesIn(t, features, o);
      CandidatesMeaning(t, H, features, minSupport, o - 1, r);
      RowsForMeaning(t, H, minSupport, o, Combinations(features, o), r);
    }
  }

  lemma {:induction false} RowsForMeaning(t: ClassTable, H: Entropy, minSupport: real, order: nat, subs: seq<seq<string>>, r: InteractionRow)
    requires ClassTableValid(t) && AllNamesIn(t, subs)
    ensures r in RowsFor(t, H, minSupport, order, subs)
        <==> (r.order == order && r.features in subs
              && !Skipped(JointPrevalence(t, r.features), minSupport)
              && r == RowOf(t, H, r.features, order))
    decreases |subs|
  {
    if subs != [] {
      var init := subs[..|subs| - 1];
      assert subs == init + [subs[|subs| - 1]];
      RowsForMeaning(t, H, minSupport, order, init, r);
    }
  }
}
