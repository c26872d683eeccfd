/** Conditional-independence structure learning on binary resistance data: the decision
    rule and the stratified Cochran-Mantel-Haenszel sums of the independence test, the PC
    skeleton with its separating sets and audit rows, the orientation of unshielded
    triples, and the census of connected induced subgraphs. */
module Discovery {
  import opened Wrappers
  import opened Combinatorics
  import opened Ordering
  import opened Counter

  // ---------------------------------------------------------------------------
  // _ci_test

  /** pd.crosstab of two binary columns within one stratum: its four cells when it is 2 x 2
      (rows and columns ordered 0, 1), or some other shape. */
  datatype Crosstab = TwoByTwo(a: nat, b: nat, c: nat, d: nat) | OtherShape

  /** What the test's library calls are given. Without a conditioning set: the table of the
      two columns, the p-value fisher_exact reports for it, the p-value chi2_contingency
      reports, and whether chi2_contingency raises (it is only guarded for tables that are
      not 2 x 2). With one: the crosstab of every stratum, in groupby order. */
  datatype CiInput =
    | Unconditional(table: Crosstab, fisherP: real, chi2P: real, chi2Raises: bool)
    | Stratified(strata: seq<Crosstab>)

  function Total(t: Crosstab): nat
    requires t.TwoByTwo?
  {
    t.a + t.b + t.c + t.d
  }

  /** (exp < 5).any() for the expected counts row_sum * col_sum / total of a 2 x 2 table
      (an empty table has no finite expected count). */
  predicate SmallExpected(t: Crosstab)
    requires t.TwoByTwo?
  {
    var n := Total(t);
    n > 0 &&
    (((t.a + t.b) * (t.a + t.c)) as real / n as real < 5.0 ||
     ((t.a + t.b) * (t.b + t.d)) as real / n as real < 5.0 ||
     ((t.c + t.d) * (t.a + t.c)) as real / n as real < 5.0 ||
     ((t.c + t.d) * (t.b + t.d)) as real / n as real < 5.0)
  }

  /** A stratum the CMH sums use: a 2 x 2 table of at least two isolates. */
  predicate Counted(t: Crosstab) {
    t.TwoByTwo? && Total(t) >= 2
  }

  /** a - (a + b)(a + c) / n: observed minus expected in the first cell. */
  function NumTerm(t: Crosstab): real
    requires Counted(t)
  {
    t.a as real - ((t.a + t.b) * (t.a + t.c)) as real / Total(t) as real
  }

  /** (a + b)(c + d)(a + c)(b + d) / (n^2 (n - 1)): the variance of the first cell. */
  function DenTerm(t: Crosstab): real
    requires Counted(t)
  {
    var n := Total(t);
    ((t.a + t.b) * (t.c + t.d) * (t.a + t.c) * (t.b + t.d)) as real / (n * n * (n - 1)) as real
  }

  function NumSum(strata: seq<Crosstab>): real {
    if strata == [] then 0.0
    else
      var t := strata[|strata| - 1];
      NumSum(strata[..|strata| - 1]) + (if Counted(t) then NumTerm(t) else 0.0)
  }

  function DenSum(strata: seq<Crosstab>): real {
    if strata == [] then 0.0
    else
      var t := strata[|strata| - 1];
      DenSum(strata[..|strata| - 1]) + (if Counted(t) then DenTerm(t) else 0.0)
  }

  /** Every margin of the table is non-empty: both values of both columns occur. */
  predicate Informative(t: Crosstab) {
    Counted(t) && t.a + t.b > 0 && t.c + t.d > 0 && t.a + t.c > 0 && t.b + t.d > 0
  }

  lemma ProductPositive(w: nat, x: nat, y: nat, z: nat)
    ensures w * x * y * z > 0 <==> w > 0 && x > 0 && y > 0 && z > 0
  {
    if w > 0 && x > 0 && y > 0 && z > 0 {
      assert w * x > 0;
      assert w * x * y > 0;
    }
  }

  lemma RatioSign(x: nat, y: nat)
    requires y > 0
    ensures x as real / y as real >= 0.0
    ensures x as real / y as real > 0.0 <==> x > 0
  {
  }

  /** A stratum's variance term is never negative, and is positive exactly when every
      margin of its table is non-empty. */
  lemma DenTermSign(t: Crosstab)
    requires Counted(t)
    ensures DenTerm(t) >= 0.0
    ensures DenTerm(t) > 0.0 <==> Informative(t)
  {
    var n := Total(t);
    assert n * n * (n - 1) > 0 by {
      assert n * n > 0;
    }
    ProductPositive(t.a + t.b, t.c + t.d, t.a + t.c, t.b + t.d);
    RatioSign((t.a + t.b) * (t.c + t.d) * (t.a + t.c) * (t.b + t.d), n * n * (n - 1));
  }

  /** The pooled variance is never negative, and is positive exactly when some stratum is
      informative; so the test degenerates to (True, 1.0) exactly when none is. */
  lemma {:induction false} DenSumSign(strata: seq<Crosstab>)
    ensures DenSum(strata) >= 0.0
    ensures DenSum(strata) > 0.0 <==> exists i :: 0 <= i < |strata| && Informative(strata[i])
  {
    if strata != [] {
      var init, t := strata[..|strata| - 1], strata[|strata| - 1];
      DenSumSign(init);
      if Counted(t) {
        DenTermSign(t);
      }
      if exists i :: 0 <= i < |strata| && Informative(strata[i]) {
        var i :| 0 <= i < |strata| && Informative(strata[i]);
        if i < |init| {
          assert Informative(init[i]);
        }
      }
      if exists i :: 0 <= i < |init| && Informative(init[i]) {
        var i :| 0 <= i < |init| && Informative(init[i]);
        assert Informative(strata[i]);
      }
    }
  }

  /** The p-value of the stratified test: 1 when the pooled variance vanishes, otherwise the
      upper tail of the chi-squared distribution with one degree of freedom at the CMH
      statistic. */
  function CmhP(strata: seq<Crosstab>, chi2Cdf: real -> real): real {
    var den := DenSum(strata);
    if den <= 0.0 then 1.0 else 1.0 - chi2Cdf(CmhStatistic(NumSum(strata), den))
  }

  /** num ** 2 / den */
  function CmhStatistic(num: real, den: real): real
    requires den > 0.0
  {
    num * num / den
  }

  /** The p-value of the test without a conditioning set. */
  function UnconditionalP(table: Crosstab, fisherP: real, chi2P: real, chi2Raises: bool): real {
    if table.TwoByTwo? then (if SmallExpected(table) then fisherP else chi2P)
    else if chi2Raises then 1.0 else chi2P
  }

  /** The stratum loop of _ci_test. */
  method CmhSums(strata: seq<Crosstab>) returns (num: real, den: real)
    ensures num == NumSum(strata) && den == DenSum(strata)
  {
    num, den := 0.0, 0.0;
    var k := 0;
    while k < |strata|
      invariant 0 <= k <= |strata|
      invariant num == NumSum(strata[..k]) && den == DenSum(strata[..k])
    {
      var st := strata[k];
      assert strata[..k + 1][..k] == strata[..k];
      if st.TwoByTwo? {
        var n := Total(st);
        if n >= 2 {
          num := num + NumTerm(st);
          den := den + DenTerm(st);
        }
      }
      k := k + 1;
    }
    assert strata[..k] == strata;
  }

  /** _ci_test: independence is reported exactly when the p-value exceeds alpha, or when
      the pooled CMH variance vanishes (then the p-value is 1). The
      library p-values (fisher_exact, chi2_contingency, the chi-squared CDF) are inputs. */
  method CiTest(input: CiInput, alpha: real, chi2Cdf: real -> real) returns (indep: bool, p: real)
    ensures indep <==> p > alpha || (input.Stratified? && DenSum(input.strata) <= 0.0)
    ensures input.Unconditional? ==>
      p == UnconditionalP(input.table, input.fisherP, input.chi2P, input.chi2Raises)
    ensures input.Stratified? ==> p == CmhP(input.strata, chi2Cdf)
    ensures input.Stratified? && (forall i :: 0 <= i < |input.strata| ==> !Informative(input.strata[i])) ==>
      indep && p == 1.0
    ensures CiResult(indep, p) == CiDecision(input, alpha, chi2Cdf)
  {
    if input.Unconditional? {
      var tab := input.table;
      if tab.TwoByTwo? {
        if SmallExpected(tab) {
          p := input.fisherP;
        } else {
          p := input.chi2P;
        }
      } else {
        if input.chi2Raises {
          p := 1.0;
        } else {
          p := input.chi2P;
        }
      }
      return p > alpha, p;
    }
    var num, den := CmhSums(input.strata);
    DenSumSign(input.strata);
    if den <= 0.0 {
      return true, 1.0;
    }
    var stat := CmhStatistic(num, den);
    p := 1.0 - chi2Cdf(stat);
    return p > alpha, p;
  }

  /** The answer of _ci_test as a value, as the PC search consumes it. Independence is
      reported whenever p exceeds alpha; below that threshold only by a stratified test
      whose strata are all uninformative, and then with p = 1.0, at any alpha. */
  function CiDecision(input: CiInput, alpha: real, chi2Cdf: real -> real): (r: CiResult)
    ensures r.p > alpha ==> r.indep
    ensures input.Unconditional? ==> (r.indep <==> r.p > alpha)
    ensures r.indep && r.p <= alpha ==>
      input.Stratified? && r.p == 1.0 && forall i :: 0 <= i < |input.strata| ==> !Informative(input.strata[i])
    ensures input.Stratified? && (forall i :: 0 <= i < |input.strata| ==> !Informative(input.strata[i])) ==>
      r == CiResult(true, 1.0)
  {
    if input.Unconditional? then
      var p := UnconditionalP(input.table, input.fisherP, input.chi2P, input.chi2Raises);
      CiResult(p > alpha, p)
    else
      DenSumSign(input.strata);
      var den := DenSum(input.strata);
      if den <= 0.0 then CiResult(true, 1.0)
      else
        var p := 1.0 - chi2Cdf(CmhStatistic(NumSum(input.strata), den));
        CiResult(p > alpha, p)
  }

  // ---------------------------------------------------------------------------
  // pc_skeleton: the graph

  /** An edge (u, v) of the skeleton, in the orientation it was added in; an arc of the
      partially oriented graph. */
  type Edge = (string, string)

  function Reverse(e: Edge): Edge {
    (e.1, e.0)
  }

  /** combinations(features, 2) as pairs: every pair of positions, earlier feature first. */
  function Pairs(fs: seq<string>): seq<Edge> {
    if fs == [] then []
    else seq(|fs| - 1, j requires 0 <= j < |fs| - 1 => (fs[0], fs[j + 1])) + Pairs(fs[1..])
  }

  lemma {:induction false} PairsMember(fs: seq<string>, e: Edge)
    requires e in Pairs(fs)
    ensures e.0 in fs && e.1 in fs[1..]
    ensures e == (fs[0], e.1) || e in Pairs(fs[1..])
  {
    var head := seq(|fs| - 1, j requires 0 <= j < |fs| - 1 => (fs[0], fs[j + 1]));
    if e in head {
      var j :| 0 <= j < |head| && head[j] == e;
      assert e.1 == fs[1..][j];
    } else {
      assert e in Pairs(fs[1..]);
      PairsMember(fs[1..], e);
    }
  }

  /** For distinct features, the complete graph has no self-loops and each pair is added in
      one orientation only. */
  lemma {:induction false} PairsOriented(fs: seq<string>, e: Edge)
    requires Distinct(fs) && e in Pairs(fs)
    ensures e.0 != e.1 && Reverse(e) !in Pairs(fs)
  {
    DistinctTail(fs);
    PairsMember(fs, e);
    if Reverse(e) in Pairs(fs) {
      PairsMember(fs, Reverse(e));
    }
    if e in Pairs(fs[1..]) {
      PairsOriented(fs[1..], e);
      if Reverse(e) in Pairs(fs[1..]) {
      } else {
        PairsMember(fs[1..], e);
      }
    }
  }

  lemma {:induction false} PairsDistinct(fs: seq<string>)
    requires Distinct(fs)
    ensures Distinct(Pairs(fs))
  {
    if fs != [] {
      DistinctTail(fs);
      PairsDistinct(fs[1..]);
      var head := seq(|fs| - 1, j requires 0 <= j < |fs| - 1 => (fs[0], fs[j + 1]));
      var ps := Pairs(fs);
      assert ps == head + Pairs(fs[1..]);
      forall a, b | 0 <= a < b < |ps| ensures ps[a] != ps[b] {
        if b < |head| {
          assert fs[a + 1] != fs[b + 1];
        } else if a < |head| {
          assert ps[b] in Pairs(fs[1..]);
          PairsMember(fs[1..], ps[b]);
        }
      }
    }
  }

  /** The pairs joined by an edge, in either orientation. */
  predicate Adjacent(g: set<Edge>, x: string, y: string) {
    (x, y) in g || (y, x) in g
  }

  /** set(G.neighbors(x)) */
  function Neighbors(g: set<Edge>, x: string): (nb: set<string>)
    ensures forall y :: y in nb <==> Adjacent(g, x, y)
  {
    var out := set e | e in g && e.0 == x :: e.1;
    var inn := set e | e in g && e.1 == x :: e.0;
    assert forall y :: (x, y) in g ==> y in out;
    assert forall y :: (y, x) in g ==> y in inn;
    out + inn
  }

  /** Which conditioning pool the removal phases draw from. AsWritten is the expression
      set(G.neighbors(u)) | set(G.neighbors(v)) - {u, v} of pc_skeleton, where the
      difference binds tighter than the union, so v itself, a neighbour of u, stays in the
      pool. EndpointsExcluded is the pool with both endpoints taken out of the union. */
  datatype PoolRule = AsWritten | EndpointsExcluded

  function Pool(rule: PoolRule, g: set<Edge>, u: string, v: string): (pool: set<string>)
    ensures rule.EndpointsExcluded? ==> u !in pool && v !in pool
    ensures forall x :: x in pool ==> Adjacent(g, u, x) || Adjacent(g, v, x)
  {
    match rule
    case AsWritten => Neighbors(g, u) + (Neighbors(g, v) - {u, v})
    case EndpointsExcluded => (Neighbors(g, u) + Neighbors(g, v)) - {u, v}
  }

  /** list(G.edges()): the edges of g in the order they were added. */
  function EdgeList(all: seq<Edge>, g: set<Edge>): (es: seq<Edge>)
    ensures forall e :: e in es <==> e in all && e in g
    ensures Distinct(all) ==> Distinct(es)
  {
    if all == [] then []
    else
      var init, e := all[..|all| - 1], all[|all| - 1];
      var es := EdgeList(init, g) + (if e in g then [e] else []);
      assert forall x :: x in all <==> x in init || x == e;
      if Distinct(all) then
        assert Distinct(init) && e !in init;
        DistinctSnoc(EdgeList(init, g), e);
        es
      else es
  }

  // ---------------------------------------------------------------------------
  // pc_skeleton: the removal phases

  /** What _ci_test(df, u, v, S, alpha) returns: its decision and its p-value. */
  datatype CiResult = CiResult(indep: bool, p: real)

  /** _ci_test on the data at hand, at a fixed alpha, for X_u and X_v given the columns S.
      The CMH statistic groups the rows by the values of S, so it depends on S as a set.
      The PC search branches on the decision, not on the p-value. */
  type CiOracle = (string, string, set<string>) -> CiResult

  /** Some conditioning set of size sz drawn from the pool of the graph at the start of the
      phase makes u and v test independent. */
  ghost predicate Separable(ci: CiOracle, rule: PoolRule, g: set<Edge>, e: Edge, sz: nat) {
    exists s: set<string> :: s <= Pool(rule, g, e.0, e.1) && |s| == sz && ci(e.0, e.1, s).indep
  }

  /** The graph after the phase for conditioning sets of size sz: every edge of g that no
      set separates survives. */
  ghost function AfterPhase(ci: CiOracle, rule: PoolRule, g: set<Edge>, sz: nat): set<Edge> {
    set e | e in g && !Separable(ci, rule, g, e, sz)
  }

  /** The skeleton after the phases for sizes 0 .. phases - 1, from the complete graph. */
  ghost function Skeleton(ci: CiOracle, rule: PoolRule, features: seq<string>, phases: nat): set<Edge> {
    if phases == 0 then Elems(Pairs(features))
    else AfterPhase(ci, rule, Skeleton(ci, rule, features, phases - 1), phases - 1)
  }

  /** A row of the details frame. condSet is None for the "—" of an edge kept at size 0,
      otherwise the separating set (",".join(S), or "∅" when it is empty). */
  datatype Detail = Detail(node1: string, node2: string, removed: bool, condSet: Option<seq<string>>,
                           p: real, condSize: int)

  /** The row the size-0 phase writes for an edge: the edge is tested once, with the empty
      set. */
  function FirstPhaseRow(ci: CiOracle, e: Edge): Detail {
    var r := ci(e.0, e.1, {});
    var p := r.p;
    if r.indep then Detail(e.0, e.1, true, Some([]), p, 0) else Detail(e.0, e.1, false, None, p, -1)
  }

  function FirstPhaseRows(ci: CiOracle, es: seq<Edge>): (rows: seq<Detail>)
    ensures |rows| == |es|
    ensures forall i :: 0 <= i < |es| ==> rows[i] == FirstPhaseRow(ci, es[i])
  {
    if es == [] then []
    else FirstPhaseRows(ci, es[..|es| - 1]) + [FirstPhaseRow(ci, es[|es| - 1])]
  }

  lemma FirstPhaseRowsSnoc(ci: CiOracle, es: seq<Edge>, i: nat)
    requires i < |es|
    ensures FirstPhaseRows(ci, es[..i + 1]) == FirstPhaseRows(ci, es[..i]) + [FirstPhaseRow(ci, es[i])]
  {
    assert es[..i + 1][..i] == es[..i];
  }

  /** s separates the edge e at size sz: distinct pool members, tested independent. */
  predicate SepFound(ci: CiOracle, rule: PoolRule, g: set<Edge>, e: Edge, sz: nat, s: seq<string>) {
    |s| == sz && Distinct(s) && Elems(s) <= Pool(rule, g, e.0, e.1) && ci(e.0, e.1, Elems(s)).indep
  }

  lemma {:induction false} SubsetSize<T>(s: set<T>, t: set<T>)
    requires s <= t
    ensures |s| <= |t|
  {
    if s != {} {
      var x :| x in s;
      SubsetSize(s - {x}, t - {x});
    }
  }

  lemma {:induction false} DistinctSize<T>(s: seq<T>)
    requires Distinct(s)
    ensures |Elems(s)| == |s|
  {
    if s != [] {
      DistinctTail(s);
      DistinctSize(s[1..]);
      assert Elems(s) == {s[0]} + Elems(s[1..]);
    }
  }

  /** list(set): the members of a set, in an order the program does not fix. */
  method Enumerate(s: set<string>) returns (r: seq<string>)
    ensures Distinct(r) && Elems(r) == s
  {
    r := [];
    var rest := s;
    while rest != {}
      invariant Distinct(r) && Elems(r) + rest == s && Elems(r) !! rest
      decreases |rest|
    {
      var x :| x in rest;
      DistinctSnoc(r, x);
      r := r + [x];
      rest := rest - {x};
    }
  }

  /** The subset loop for one edge: the position of the first subset that tests
      independent, with its p-value. */
  method FirstSeparating(ci: CiOracle, u: string, v: string, cs: seq<seq<string>>)
    returns (found: Option<nat>, p: real)
    ensures found.Some? ==> found.value < |cs| && p == ci(u, v, Elems(cs[found.value])).p && ci(u, v, Elems(cs[found.value])).indep
    ensures found.Some? ==> forall q :: 0 <= q < found.value ==> !ci(u, v, Elems(cs[q])).indep
    ensures found.None? ==> forall q :: 0 <= q < |cs| ==> !ci(u, v, Elems(cs[q])).indep
  {
    var q := 0;
    while q < |cs|
      invariant 0 <= q <= |cs|
      invariant forall q' :: 0 <= q' < q ==> !ci(u, v, Elems(cs[q'])).indep
    {
      var r := ci(u, v, Elems(cs[q]));
      if r.indep {
        return Some(q), r.p;
      }
      q := q + 1;
    }
    return None, 0.0;
  }

  /** The tests for one edge decide exactly what Separable says: some subset of the pool of
      size sz tests independent. */
  lemma SeparableExactly(ci: CiOracle, rule: PoolRule, g: set<Edge>, e: Edge, sz: nat,
                         pool: seq<string>, found: Option<nat>)
    requires Distinct(pool) && Elems(pool) == Pool(rule, g, e.0, e.1)
    requires found.Some? ==> (found.value < |Combinations(pool, sz)|
      && ci(e.0, e.1, Elems(Combinations(pool, sz)[found.value])).indep)
    requires found.None? ==>
      forall q :: 0 <= q < |Combinations(pool, sz)| ==> !ci(e.0, e.1, Elems(Combinations(pool, sz)[q])).indep
    ensures found.Some? <==> Separable(ci, rule, g, e, sz)
    ensures found.Some? ==> SepFound(ci, rule, g, e, sz, Combinations(pool, sz)[found.value])
  {
    var cs := Combinations(pool, sz);
    if found.Some? {
      var c := cs[found.value];
      CombinationsShape(pool, sz, c);
      CombinationsDistinct(pool, sz, c);
      DistinctSize(c);
      assert Elems(c) <= Pool(rule, g, e.0, e.1) && |Elems(c)| == sz;
    } else {
      forall s | s <= Pool(rule, g, e.0, e.1) && |s| == sz ensures !ci(e.0, e.1, s).indep {
        CombinationsComplete(pool, sz, s);
        var c :| c in cs && Elems(c) == s;
        var q :| 0 <= q < |cs| && cs[q] == c;
      }
    }
  }

  /** The tests of one edge at one size: its pool, the subsets of the pool in the order
      list(set) and combinations give them, the first that tests independent, and the
      details row this writes, if any. */
  method TestEdge(ci: CiOracle, rule: PoolRule, g: set<Edge>, e: Edge, sz: nat)
    returns (found: Option<seq<string>>, row: Option<Detail>)
    ensures found.Some? <==> Separable(ci, rule, g, e, sz)
    ensures found.Some? ==> SepFound(ci, rule, g, e, sz, found.value)
    ensures found.Some? ==> row == Some(RemovalRow(ci, e, found.value))
    ensures found.None? && sz > 0 ==> row.None?
    ensures sz == 0 ==> row == Some(FirstPhaseRow(ci, e))
  {
    var u, v := e.0, e.1;
    var poolSet := Pool(rule, g, u, v);
    if |poolSet| < sz {
      forall s | s <= poolSet ensures |s| != sz {
        SubsetSize(s, poolSet);
      }
      return None, None;
    }
    var nbrs := Enumerate(poolSet);
    var cs := Combinations(nbrs, sz);
    var idx, p := FirstSeparating(ci, u, v, cs);
    SeparableExactly(ci, rule, g, e, sz, nbrs, idx);
    if idx.Some? {
      var s := cs[idx.value];
      assert sz == 0 ==> s == [] && Elems(s) == {};
      return Some(s), Some(Detail(u, v, true, Some(s), p, sz));
    }
    if sz == 0 {
      assert Elems(cs[0]) == {};
      var p0 := ci(u, v, {}).p;
      return None, Some(Detail(u, v, false, None, p0, -1));
    }
    return None, None;
  }

  /** The row for an edge removed with separating set s. */
  function RemovalRow(ci: CiOracle, e: Edge, s: seq<string>): Detail {
    Detail(e.0, e.1, true, Some(s), ci(e.0, e.1, Elems(s)).p, |s|)
  }

  /** Both orientations of the edges in es. */
  function Undirected(es: set<Edge>): set<Edge> {
    es + set e | e in es :: Reverse(e)
  }

  lemma UndirectedAdd(es: set<Edge>, e: Edge)
    ensures Undirected(es + {e}) == Undirected(es) + {e, Reverse(e)}
  {
    var l, r := Undirected(es + {e}), Undirected(es) + {e, Reverse(e)};
    forall x | x in l ensures x in r {
      if x !in es + {e} {
        var y :| y in es + {e} && x == Reverse(y);
      }
    }
    forall x | x in r ensures x in l {
      if x in Undirected(es) && x !in es {
        var y :| y in es && x == Reverse(y);
        assert y in es + {e};
      }
      if x == Reverse(e) {
        assert e in es + {e};
      }
    }
  }

  /** for u, v in rm: if G.has_edge(u, v): G.remove_edge(u, v) */
  method RemoveEdges(g: set<Edge>, rm: seq<Edge>) returns (g': set<Edge>)
    ensures g' == g - Undirected(Elems(rm))
  {
    g' := g;
    var k := 0;
    while k < |rm|
      invariant 0 <= k <= |rm|
      invariant g' == g - Undirected(Elems(rm[..k]))
    {
      var (u, v) := rm[k];
      assert Elems(rm[..k + 1]) == Elems(rm[..k]) + {(u, v)} by {
        assert rm[..k + 1] == rm[..k] + [rm[k]];
      }
      UndirectedAdd(Elems(rm[..k]), (u, v));
      if Adjacent(g', u, v) {
        g' := g' - {(u, v), (v, u)};
      }
      k := k + 1;
    }
    assert rm[..k] == rm;
  }

  /** The pairs of all: no self-loops and one orientation per pair. */
  predicate Oriented(all: seq<Edge>) {
    forall e :: e in all ==> e.0 != e.1 && Reverse(e) !in all
  }

  /** A removal row of the phase for size sz whose separating set is the one stored. */
  predicate RowOfRemoval(ci: CiOracle, r: Detail, sz: nat, sep: map<Edge, seq<string>>,
                         removed: set<Edge>) {
    var e := (r.node1, r.node2);
    e in removed && e in sep && |sep[e]| == sz && r == RemovalRow(ci, e, sep[e]) && ci(e.0, e.1, Elems(sep[e])).indep
  }

  /** The separating sets after the edges rm were removed, on top of those of earlier
      phases. */
  predicate SepState(ci: CiOracle, rule: PoolRule, g: set<Edge>, sz: nat, sep0: map<Edge, seq<string>>,
                     rm: seq<Edge>, sep: map<Edge, seq<string>>) {
    && sep.Keys == sep0.Keys + Undirected(Elems(rm))
    && (forall e :: e in rm ==> SepFound(ci, rule, g, e, sz, sep[e]) && sep[Reverse(e)] == sep[e])
    && (forall k :: k in sep0 && k !in Undirected(Elems(rm)) ==> sep[k] == sep0[k])
  }

  /** The removal rows of the edges rm, in their order, each naming the set stored for its
      edge. */
  function RemovalRows(ci: CiOracle, rm: seq<Edge>, sep: map<Edge, seq<string>>): (rows: seq<Detail>)
    requires forall e :: e in rm ==> e in sep
    ensures |rows| == |rm|
    ensures forall i :: 0 <= i < |rm| ==> rows[i] == RemovalRow(ci, rm[i], sep[rm[i]])
  {
    if rm == [] then []
    else RemovalRows(ci, rm[..|rm| - 1], sep) + [RemovalRow(ci, rm[|rm| - 1], sep[rm[|rm| - 1]])]
  }

  /** One removal row per removed edge, in the order of removal, each naming its stored
      separating set of size sz, under which the edge tests independent. */
  predicate RowsState(ci: CiOracle, sz: nat, rows: seq<Detail>, rm: seq<Edge>,
                      sep: map<Edge, seq<string>>) {
    && (forall e :: e in rm ==> e in sep && |sep[e]| == sz && ci(e.0, e.1, Elems(sep[e])).indep)
    && rows == RemovalRows(ci, rm, sep)
  }

  lemma RowsStateRows(ci: CiOracle, sz: nat, rows: seq<Detail>, rm: seq<Edge>, sep: map<Edge, seq<string>>)
    requires RowsState(ci, sz, rows, rm, sep)
    ensures |rows| == |rm| && forall r :: r in rows ==> RowOfRemoval(ci, r, sz, sep, Elems(rm))
  {
    forall r | r in rows ensures RowOfRemoval(ci, r, sz, sep, Elems(rm)) {
      var i :| 0 <= i < |rows| && rows[i] == r;
      assert rm[i] in rm;
    }
  }

  /** Rows built from two stores that agree on the edges are the same rows. */
  lemma RemovalRowsAgree(ci: CiOracle, rm: seq<Edge>, sep: map<Edge, seq<string>>, sep': map<Edge, seq<string>>)
    requires forall e :: e in rm ==> e in sep && e in sep' && sep'[e] == sep[e]
    ensures RemovalRows(ci, rm, sep') == RemovalRows(ci, rm, sep)
  {
  }

  lemma RemovalRowsAppend(ci: CiOracle, a: seq<Edge>, b: seq<Edge>, sep: map<Edge, seq<string>>)
    requires forall e :: e in a + b ==> e in sep
    ensures RemovalRows(ci, a + b, sep) == RemovalRows(ci, a, sep) + RemovalRows(ci, b, sep)
  {
  }

  lemma SepStateAdd(ci: CiOracle, rule: PoolRule, g: set<Edge>, sz: nat, sep0: map<Edge, seq<string>>,
                    rm: seq<Edge>, sep: map<Edge, seq<string>>, e: Edge, s: seq<string>)
    requires SepState(ci, rule, g, sz, sep0, rm, sep) && SepFound(ci, rule, g, e, sz, s)
    requires e !in Undirected(Elems(rm)) && Reverse(e) !in Undirected(Elems(rm))
    ensures SepState(ci, rule, g, sz, sep0, rm + [e], sep[e := s][Reverse(e) := s])
  {
    assert Elems(rm + [e]) == Elems(rm) + {e};
    UndirectedAdd(Elems(rm), e);
    SepKeepAdd(sep0, Undirected(Elems(rm)), sep, e, s);
    SepFoundAdd(ci, rule, g, sz, rm, sep, e, s);
  }

  /** Storing e under both orientations keeps every older entry outside the removed pairs. */
  lemma SepKeepAdd(sep0: map<Edge, seq<string>>, un: set<Edge>, sep: map<Edge, seq<string>>, e: Edge,
                   s: seq<string>)
    requires sep.Keys == sep0.Keys + un
    requires forall k :: k in sep0 && k !in un ==> sep[k] == sep0[k]
    ensures sep[e := s][Reverse(e) := s].Keys == sep0.Keys + (un + {e, Reverse(e)})
    ensures forall k :: k in sep0 && k !in un + {e, Reverse(e)} ==> sep[e := s][Reverse(e) := s][k] == sep0[k]
  {
  }

  /** Storing e under both orientations keeps the separating sets of the earlier removals. */
  lemma SepFoundAdd(ci: CiOracle, rule: PoolRule, g: set<Edge>, sz: nat, rm: seq<Edge>,
                    sep: map<Edge, seq<string>>, e: Edge, s: seq<string>)
    requires forall x :: x in rm ==> x in sep && Reverse(x) in sep
    requires forall x :: x in rm ==> SepFound(ci, rule, g, x, sz, sep[x]) && sep[Reverse(x)] == sep[x]
    requires SepFound(ci, rule, g, e, sz, s)
    requires e !in Undirected(Elems(rm)) && Reverse(e) !in Undirected(Elems(rm))
    ensures forall x :: x in rm + [e] ==>
      SepFound(ci, rule, g, x, sz, sep[e := s][Reverse(e) := s][x])
      && sep[e := s][Reverse(e) := s][Reverse(x)] == sep[e := s][Reverse(e) := s][x]
  {
    var sep' := sep[e := s][Reverse(e) := s];
    forall x | x in rm + [e] ensures SepFound(ci, rule, g, x, sz, sep'[x]) && sep'[Reverse(x)] == sep'[x] {
      if x != e {
        assert x in rm;
        assert x in Undirected(Elems(rm)) && Reverse(x) in Undirected(Elems(rm));
      }
    }
  }

  lemma RowsStateAdd(ci: CiOracle, sz: nat, rows: seq<Detail>, rm: seq<Edge>,
                     sep: map<Edge, seq<string>>, e: Edge, s: seq<string>)
    requires RowsState(ci, sz, rows, rm, sep) && |s| == sz && ci(e.0, e.1, Elems(s)).indep
    requires e !in Undirected(Elems(rm)) && Reverse(e) !in Undirected(Elems(rm))
    requires forall x :: x in rm ==> x in sep
    ensures RowsState(ci, sz, rows + [RemovalRow(ci, e, s)], rm + [e], sep[e := s][Reverse(e) := s])
  {
    var sep' := sep[e := s][Reverse(e) := s];
    var rm' := rm + [e];
    assert forall x :: x in rm ==> x in sep' && sep'[x] == sep[x] by {
      forall x | x in rm ensures x in sep' && sep'[x] == sep[x] {
        assert x in Undirected(Elems(rm)) && Reverse(x) in Undirected(Elems(rm));
        assert x != e && x != Reverse(e);
      }
    }
    assert forall x :: x in rm' ==> x in sep' && |sep'[x]| == sz && ci(x.0, x.1, Elems(sep'[x])).indep by {
      assert forall x :: x in rm' ==> x in rm || x == e;
    }
    assert RemovalRows(ci, rm', sep') == rows + [RemovalRow(ci, e, s)] by {
      RemovalRowsAgree(ci, rm, sep, sep');
      assert rm'[..|rm'| - 1] == rm;
    }
  }

  /** One size phase of pc_skeleton: every edge present at its start is tested, removals are
      collected in rm, their separating sets are stored under both orientations, and the
      edges are removed only once every edge has been tested. */
  method RemovalPhase(ci: CiOracle, rule: PoolRule, all: seq<Edge>, g: set<Edge>, sz: nat,
                      sep0: map<Edge, seq<string>>)
    returns (g': set<Edge>, sep: map<Edge, seq<string>>, rows: seq<Detail>, rm: seq<Edge>)
    requires Distinct(all) && Oriented(all) && g <= Elems(all)
    ensures g' == AfterPhase(ci, rule, g, sz)
    ensures Distinct(rm) && Elems(rm) == g - g'
    ensures sz > 0 ==> |rows| == |rm|
    ensures sep.Keys == sep0.Keys + Undirected(g - g')
    ensures forall e :: e in g - g' ==> SepFound(ci, rule, g, e, sz, sep[e]) && sep[Reverse(e)] == sep[e]
    ensures forall k :: k in sep0 && k !in Undirected(g - g') ==> sep[k] == sep0[k]
    ensures sz == 0 ==> rows == FirstPhaseRows(ci, EdgeList(all, g))
    ensures sz > 0 ==> |rows| == |g - g'|
    ensures sz > 0 ==> forall r :: r in rows ==> RowOfRemoval(ci, r, sz, sep, g - g')
    ensures sz > 0 ==> (forall e :: e in rm ==> e in sep) && rows == RemovalRows(ci, rm, sep)
  {
    var es := EdgeList(all, g);
    rm, sep, rows := ScanEdges(ci, rule, all, es, g, sz, sep0);
    g' := RemoveEdges(g, rm);
    PhaseEnd(ci, rule, all, es, g, g', sz, rm);
    DistinctSize(rm);
    if sz > 0 {
      RowsStateRows(ci, sz, rows, rm, sep);
    }
  }

  /** The edge tested next is stored under neither orientation yet. */
  lemma FreshKeys(all: seq<Edge>, es: seq<Edge>, i: nat, rm: seq<Edge>)
    requires Oriented(all) && Distinct(es) && i < |es| && (forall e :: e in es ==> e in all)
    requires forall e :: e in rm ==> e in es[..i]
    ensures es[i] !in Undirected(Elems(rm)) && Reverse(es[i]) !in Undirected(Elems(rm))
  {
    var e := es[i];
    forall j | 0 <= j < i ensures es[..i][j] != e {
      assert es[..i][j] == es[j];
    }
    assert e in all && Reverse(e) !in all;
  }

  /** Removing the collected edges leaves exactly the edges no set separates. */
  lemma PhaseEnd(ci: CiOracle, rule: PoolRule, all: seq<Edge>, es: seq<Edge>, g: set<Edge>, g': set<Edge>,
                 sz: nat, rm: seq<Edge>)
    requires Oriented(all) && g <= Elems(all) && es == EdgeList(all, g)
    requires forall e :: e in rm <==> e in es && Separable(ci, rule, g, e, sz)
    requires g' == g - Undirected(Elems(rm))
    ensures g' == AfterPhase(ci, rule, g, sz)
    ensures g - g' == Elems(rm)
  {
    forall e | e in g
      ensures e in g' <==> !Separable(ci, rule, g, e, sz)
    {
      assert e in all && e in es && Reverse(e) !in all;
    }
  }

  /** The edges collected so far are the separable ones among the first i of es, in order. */
  ghost predicate ScanMembers(ci: CiOracle, rule: PoolRule, es: seq<Edge>, i: nat, g: set<Edge>, sz: nat,
                              rm: seq<Edge>)
    requires i <= |es|
  {
    Distinct(rm) && forall e :: e in rm <==> e in es[..i] && Separable(ci, rule, g, e, sz)
  }

  /** The rows written so far: the first phase writes one per edge, later phases one per
      removal. */
  predicate ScanRows(ci: CiOracle, es: seq<Edge>, i: nat, sz: nat, rm: seq<Edge>,
                     sep: map<Edge, seq<string>>, rows: seq<Detail>)
    requires i <= |es|
  {
    && (sz == 0 ==> rows == FirstPhaseRows(ci, es[..i]))
    && (sz > 0 ==> RowsState(ci, sz, rows, rm, sep))
  }

  /** What the scan has established after the first i edges of es. */
  ghost predicate ScanState(ci: CiOracle, rule: PoolRule, es: seq<Edge>, i: nat, g: set<Edge>, sz: nat,
                            sep0: map<Edge, seq<string>>, rm: seq<Edge>, sep: map<Edge, seq<string>>,
                            rows: seq<Detail>)
    requires i <= |es|
  {
    && ScanMembers(ci, rule, es, i, g, sz, rm)
    && SepState(ci, rule, g, sz, sep0, rm, sep)
    && ScanRows(ci, es, i, sz, rm, sep, rows)
  }

  /** The scan of one phase over list(G.edges()): the edges found separable, in order, with
      their separating sets and the rows written. */
  method ScanEdges(ci: CiOracle, rule: PoolRule, all: seq<Edge>, es: seq<Edge>, g: set<Edge>, sz: nat,
                   sep0: map<Edge, seq<string>>)
    returns (rm: seq<Edge>, sep: map<Edge, seq<string>>, rows: seq<Detail>)
    requires Distinct(all) && Oriented(all) && es == EdgeList(all, g)
    ensures Distinct(rm) && forall e :: e in rm <==> e in es && Separable(ci, rule, g, e, sz)
    ensures SepState(ci, rule, g, sz, sep0, rm, sep)
    ensures sz == 0 ==> rows == FirstPhaseRows(ci, es)
    ensures sz > 0 ==> RowsState(ci, sz, rows, rm, sep)
  {
    rm := [];
    sep, rows := sep0, [];
    var i := 0;
    while i < |es|
      invariant 0 <= i <= |es|
      invariant ScanState(ci, rule, es, i, g, sz, sep0, rm, sep, rows)
    {
      rm, sep, rows := ScanEdge(ci, rule, all, es, i, g, sz, sep0, rm, sep, rows);
      i := i + 1;
    }
    assert es[..i] == es;
  }

  /** One iteration of the scan: test the edge es[i] and record what it found. */
  method ScanEdge(ci: CiOracle, rule: PoolRule, all: seq<Edge>, es: seq<Edge>, i: nat, g: set<Edge>, sz: nat,
                  sep0: map<Edge, seq<string>>, rm0: seq<Edge>, sep0': map<Edge, seq<string>>, rows0: seq<Detail>)
    returns (rm: seq<Edge>, sep: map<Edge, seq<string>>, rows: seq<Detail>)
    requires Distinct(all) && Oriented(all) && es == EdgeList(all, g) && i < |es|
    requires ScanState(ci, rule, es, i, g, sz, sep0, rm0, sep0', rows0)
    ensures ScanState(ci, rule, es, i + 1, g, sz, sep0, rm, sep, rows)
  {
    var e := es[i];
    var found, row := TestEdge(ci, rule, g, e, sz);
    if found.Some? {
      var s := found.value;
      ScanFound(ci, rule, all, es, i, g, sz, sep0, rm0, sep0', rows0, s);
      rm, sep, rows := rm0 + [e], sep0'[e := s][Reverse(e) := s], rows0 + [row.value];
    } else {
      ScanMissed(ci, rule, es, i, g, sz, sep0, rm0, sep0', rows0);
      rm, sep := rm0, sep0';
      rows := if sz == 0 then rows0 + [row.value] else rows0;
    }
  }

  /** The scan state after an edge that some set separates. */
  lemma ScanFound(ci: CiOracle, rule: PoolRule, all: seq<Edge>, es: seq<Edge>, i: nat, g: set<Edge>, sz: nat,
                  sep0: map<Edge, seq<string>>, rm: seq<Edge>, sep: map<Edge, seq<string>>, rows: seq<Detail>,
                  s: seq<string>)
    requires Distinct(all) && Oriented(all) && es == EdgeList(all, g) && i < |es|
    requires ScanState(ci, rule, es, i, g, sz, sep0, rm, sep, rows)
    requires SepFound(ci, rule, g, es[i], sz, s) && Separable(ci, rule, g, es[i], sz)
    ensures ScanState(ci, rule, es, i + 1, g, sz, sep0, rm + [es[i]], sep[es[i] := s][Reverse(es[i]) := s],
                      rows + [RemovalRow(ci, es[i], s)])
  {
    var e := es[i];
    FreshKeys(all, es, i, rm);
    MembersAdd(ci, rule, es, i, g, sz, rm);
    SepStateAdd(ci, rule, g, sz, sep0, rm, sep, e, s);
    RowsAdd(ci, es, i, sz, rm, sep, rows, s);
  }

  lemma MembersAdd(ci: CiOracle, rule: PoolRule, es: seq<Edge>, i: nat, g: set<Edge>, sz: nat, rm: seq<Edge>)
    requires i < |es| && ScanMembers(ci, rule, es, i, g, sz, rm)
    requires es[i] !in rm && Separable(ci, rule, g, es[i], sz)
    ensures ScanMembers(ci, rule, es, i + 1, g, sz, rm + [es[i]])
  {
    var e := es[i];
    assert es[..i + 1] == es[..i] + [e];
    assert forall x :: x in es[..i + 1] <==> x in es[..i] || x == e;
    DistinctSnoc(rm, e);
    assert forall x :: x in rm + [e] <==> x in rm || x == e;
  }

  lemma RowsAdd(ci: CiOracle, es: seq<Edge>, i: nat, sz: nat, rm: seq<Edge>,
                sep: map<Edge, seq<string>>, rows: seq<Detail>, s: seq<string>)
    requires i < |es| && ScanRows(ci, es, i, sz, rm, sep, rows)
    requires |s| == sz && ci(es[i].0, es[i].1, Elems(s)).indep
    requires es[i] !in Undirected(Elems(rm)) && Reverse(es[i]) !in Undirected(Elems(rm))
    requires forall x :: x in rm ==> x in sep
    ensures ScanRows(ci, es, i + 1, sz, rm + [es[i]], sep[es[i] := s][Reverse(es[i]) := s],
                     rows + [RemovalRow(ci, es[i], s)])
  {
    if sz == 0 {
      FirstPhaseRowsSnoc(ci, es, i);
      assert s == [] && Elems(s) == {};
      assert RemovalRow(ci, es[i], s) == FirstPhaseRow(ci, es[i]);
    } else {
      RowsStateAdd(ci, sz, rows, rm, sep, es[i], s);
    }
  }

  /** The scan state after an edge that no set separates. */
  lemma ScanMissed(ci: CiOracle, rule: PoolRule, es: seq<Edge>, i: nat, g: set<Edge>, sz: nat,
                   sep0: map<Edge, seq<string>>, rm: seq<Edge>, sep: map<Edge, seq<string>>, rows: seq<Detail>)
    requires i < |es|
    requires ScanState(ci, rule, es, i, g, sz, sep0, rm, sep, rows)
    requires !Separable(ci, rule, g, es[i], sz)
    ensures ScanState(ci, rule, es, i + 1, g, sz, sep0, rm, sep,
                      if sz == 0 then rows + [FirstPhaseRow(ci, es[i])] else rows)
  {
    assert es[..i + 1] == es[..i] + [es[i]];
    assert forall x :: x in es[..i + 1] <==> x in es[..i] || x == es[i];
    FirstPhaseRowsSnoc(ci, es, i);
  }

  // ---------------------------------------------------------------------------
  // pc_skeleton: all phases

  /** The number of size phases range(max_cond + 1) runs. */
  function Phases(maxCond: int): nat {
    if maxCond < 0 then 0 else maxCond + 1
  }

  lemma UndirectedUnion(a: set<Edge>, b: set<Edge>)
    ensures Undirected(a) + Undirected(b) == Undirected(a + b)
  {
    forall x | x in Undirected(a + b) ensures x in Undirected(a) + Undirected(b) {
      if x !in a + b {
        var y :| y in a + b && x == Reverse(y);
        if y in a { assert x in Undirected(a); } else { assert x in Undirected(b); }
      }
    }
    forall x | x in Undirected(a) + Undirected(b) ensures x in Undirected(a + b) {
      if x in Undirected(a) && x !in a {
        var y :| y in a && x == Reverse(y);
        assert y in a + b;
      }
      if x in Undirected(b) && x !in b {
        var y :| y in b && x == Reverse(y);
        assert y in a + b;
      }
    }
  }

  lemma {:induction false} EdgeListAll(all: seq<Edge>)
    ensures EdgeList(all, Elems(all)) == all
  {
    if all != [] {
      var init, e := all[..|all| - 1], all[|all| - 1];
      assert all == init + [e];
      assert EdgeList(init, Elems(all)) == init by {
        assert Elems(init) <= Elems(all) by {
          forall x | x in Elems(init) ensures x in Elems(all) {
            assert x in init;
          }
        }
        EdgeListSuper(init, Elems(all));
        EdgeListAll(init);
      }
      assert EdgeList(all, Elems(all)) == EdgeList(init, Elems(all)) + [e] by {
        assert e in Elems(all);
      }
    }
  }

  lemma {:induction false} EdgeListSuper(all: seq<Edge>, g: set<Edge>)
    requires Elems(all) <= g
    ensures EdgeList(all, g) == EdgeList(all, Elems(all))
  {
    if all != [] {
      var init := all[..|all| - 1];
      assert Elems(init) <= Elems(all);
      EdgeListSuper(init, g);
      EdgeListSuper(init, Elems(all));
    }
  }

  /** Every removed pair keeps the set that separated it, under both orientations; the set
      was drawn from the pool of the skeleton at the start of the phase for its size. */
  ghost predicate SepRecord(ci: CiOracle, rule: PoolRule, features: seq<string>, sz: nat,
                            g: set<Edge>, sep: map<Edge, seq<string>>)
  {
    var pairs := Elems(Pairs(features));
    && sep.Keys == Undirected(pairs - g)
    && forall e :: e in pairs - g ==>
         && sep[Reverse(e)] == sep[e] && |sep[e]| < sz
         && SepFound(ci, rule, Skeleton(ci, rule, features, |sep[e]|), e, |sep[e]|, sep[e])
  }

  /** The rows of the phases for sizes 1 and up: each one a removal with its stored set. */
  predicate LaterRows(ci: CiOracle, removed: set<Edge>, sep: map<Edge, seq<string>>,
                      rows: seq<Detail>) {
    forall r :: r in rows ==>
      var e := (r.node1, r.node2);
      e in removed && e in sep && |sep[e]| >= 1 && r == RemovalRow(ci, e, sep[e]) && ci(e.0, e.1, Elems(sep[e])).indep
  }

  /** The rows written before the phase for size sz: the rows of the size-0 phase, one per
      pair, then one removal row per pair removed since, in the order of removal; later lists
      those pairs in that order. s1 is the skeleton after the phase for size 0. */
  predicate DetailsState(ci: CiOracle, all: seq<Edge>, s1: set<Edge>, sz: nat,
                         g: set<Edge>, sep: map<Edge, seq<string>>, details: seq<Detail>, later: seq<Edge>)
  {
    && (sz == 0 ==> details == [])
    && (sz > 0 ==>
          && |all| <= |details|
          && details[..|all|] == FirstPhaseRows(ci, all)
          && |details| == |all| + |later| && Distinct(later) && Elems(later) == s1 - g
          && (forall e :: e in later ==> e in sep)
          && details[|all|..] == RemovalRows(ci, later, sep)
          && LaterRows(ci, Elems(all) - g, sep, details[|all|..]))
  }

  ghost predicate PhasesState(ci: CiOracle, rule: PoolRule, features: seq<string>, s1: set<Edge>,
                              sz: nat, g: set<Edge>, sep: map<Edge, seq<string>>, details: seq<Detail>,
                              later: seq<Edge>)
  {
    && g == Skeleton(ci, rule, features, sz) && g <= Elems(Pairs(features))
    && SepRecord(ci, rule, features, sz, g, sep)
    && DetailsState(ci, Pairs(features), s1, sz, g, sep, details, later)
  }

  /** Phase 1 of pc_skeleton: starting from the complete graph on the features, one removal
      phase per conditioning-set size 0 .. max_cond. later lists the pairs removed after the
      phase for size 0. */
  method RemovalPhases(features: seq<string>, ci: CiOracle, rule: PoolRule, maxCond: int)
    returns (g: set<Edge>, sep: map<Edge, seq<string>>, details: seq<Detail>, ghost later: seq<Edge>)
    requires Distinct(features)
    ensures PhasesState(ci, rule, features, AfterPhase(ci, rule, Elems(Pairs(features)), 0), Phases(maxCond), g, sep, details, later)
  {
    var all := Pairs(features);
    ghost var s1 := AfterPhase(ci, rule, Elems(Pairs(features)), 0);
    PhasesInit(ci, rule, features, s1);
    g, sep, details, later := Elems(all), map[], [], [];
    var sz: nat := 0;
    while sz < Phases(maxCond)
      invariant sz <= Phases(maxCond)
      invariant PhasesState(ci, rule, features, s1, sz, g, sep, details, later) == true  // one fact, not split conjunct by conjunct
    {
      g, sep, details, later := NextPhase(features, ci, rule, s1, sz, g, sep, details, later);
      sz := sz + 1;
    }
    assert sz == Phases(maxCond);
  }

  /** The phase for size sz, appending its rows to the details. */
  method NextPhase(features: seq<string>, ci: CiOracle, rule: PoolRule, ghost s1: set<Edge>, sz: nat,
                   g: set<Edge>, sep: map<Edge, seq<string>>, details: seq<Detail>, ghost later: seq<Edge>)
    returns (g': set<Edge>, sep': map<Edge, seq<string>>, details': seq<Detail>, ghost later': seq<Edge>)
    requires Distinct(Pairs(features)) && Oriented(Pairs(features)) && s1 == AfterPhase(ci, rule, Elems(Pairs(features)), 0)
    requires PhasesState(ci, rule, features, s1, sz, g, sep, details, later) == true  // checked as one fact
    ensures PhasesState(ci, rule, features, s1, sz + 1, g', sep', details', later')
  {
    var rows, rm;
    g', sep', rows, rm := RemovalPhase(ci, rule, Pairs(features), g, sz, sep);
    later' := if sz == 0 then [] else later + rm;
    PhasesStep(ci, rule, features, s1, sz, g, sep, details, later, g', sep', rows, rm);
    details' := details + rows;
  }

  lemma PhasesInit(ci: CiOracle, rule: PoolRule, features: seq<string>, s1: set<Edge>)
    requires Distinct(features)
    ensures Distinct(Pairs(features)) && Oriented(Pairs(features))
    ensures PhasesState(ci, rule, features, s1, 0, Elems(Pairs(features)), map[], [], [])
  {
    var all := Pairs(features);
    PairsDistinct(features);
    forall e | e in all ensures e.0 != e.1 && Reverse(e) !in all {
      PairsOriented(features, e);
    }
    assert Undirected(Elems(all) - Elems(all)) == {};
  }

  lemma PhasesStep(ci: CiOracle, rule: PoolRule, features: seq<string>, s1: set<Edge>, sz: nat,
                   g: set<Edge>, sep: map<Edge, seq<string>>, details: seq<Detail>, later: seq<Edge>,
                   g': set<Edge>, sep': map<Edge, seq<string>>, rows: seq<Detail>, rm: seq<Edge>)
    requires Oriented(Pairs(features)) && s1 == AfterPhase(ci, rule, Elems(Pairs(features)), 0)
    requires PhasesState(ci, rule, features, s1, sz, g, sep, details, later)
    requires g' == AfterPhase(ci, rule, g, sz)
    requires Distinct(rm) && Elems(rm) == g - g'
    requires sep'.Keys == sep.Keys + Undirected(g - g')
    requires forall e :: e in g - g' ==> SepFound(ci, rule, g, e, sz, sep'[e]) && sep'[Reverse(e)] == sep'[e]
    requires forall k :: k in sep && k !in Undirected(g - g') ==> sep'[k] == sep[k]
    requires sz == 0 ==> rows == FirstPhaseRows(ci, EdgeList(Pairs(features), g))
    requires sz > 0 ==> |rows| == |rm|
    requires sz > 0 ==> forall r :: r in rows ==> RowOfRemoval(ci, r, sz, sep', g - g')
    requires sz > 0 ==> (forall e :: e in rm ==> e in sep') && rows == RemovalRows(ci, rm, sep')
    ensures PhasesState(ci, rule, features, s1, sz + 1, g', sep', details + rows,
                        if sz == 0 then [] else later + rm)
  {
    var all := Pairs(features);
    assert g' <= g;
    SepRecordStep(ci, rule, features, sz, g, sep, g', sep');
    OldKept(all, g, g', sep, sep');
    assert s1 == Skeleton(ci, rule, features, 1) && s1 <= Elems(all);
    if sz > 0 {
      SkeletonShrinks(ci, rule, features, 1, sz);
    }
    DetailsStep(ci, all, s1, sz, g, sep, details, later, g', sep', rows, rm);
  }

  /** An entry for a pair removed in an earlier phase is not touched again. */
  lemma OldKept(all: seq<Edge>, g: set<Edge>, g': set<Edge>, sep: map<Edge, seq<string>>,
                sep': map<Edge, seq<string>>)
    requires Oriented(all) && g' <= g <= Elems(all)
    requires sep.Keys == Undirected(Elems(all) - g) && sep'.Keys == sep.Keys + Undirected(g - g')
    requires forall k :: k in sep && k !in Undirected(g - g') ==> sep'[k] == sep[k]
    ensures forall e :: e in Elems(all) - g ==> e in sep && sep'[e] == sep[e] && sep'[Reverse(e)] == sep[Reverse(e)]
  {
    forall e | e in Elems(all) - g
      ensures e in sep && sep'[e] == sep[e] && sep'[Reverse(e)] == sep[Reverse(e)]
    {
      assert e in all && Reverse(e) !in all;
      assert Reverse(Reverse(e)) == e;
      assert e in Undirected(Elems(all) - g) && Reverse(e) in Undirected(Elems(all) - g);
      assert e !in Undirected(g - g') && Reverse(e) !in Undirected(g - g');
    }
  }

  lemma SepRecordStep(ci: CiOracle, rule: PoolRule, features: seq<string>, sz: nat,
                      g: set<Edge>, sep: map<Edge, seq<string>>, g': set<Edge>, sep': map<Edge, seq<string>>)
    requires Oriented(Pairs(features))
    requires g == Skeleton(ci, rule, features, sz) && g <= Elems(Pairs(features)) && g' <= g
    requires SepRecord(ci, rule, features, sz, g, sep)
    requires sep'.Keys == sep.Keys + Undirected(g - g')
    requires forall e :: e in g - g' ==> SepFound(ci, rule, g, e, sz, sep'[e]) && sep'[Reverse(e)] == sep'[e]
    requires forall k :: k in sep && k !in Undirected(g - g') ==> sep'[k] == sep[k]
    ensures SepRecord(ci, rule, features, sz + 1, g', sep')
  {
    var all := Pairs(features);
    var pairs := Elems(all);
    OldKept(all, g, g', sep, sep');
    assert (pairs - g) + (g - g') == pairs - g';
    UndirectedUnion(pairs - g, g - g');
    forall e | e in pairs - g'
      ensures sep'[Reverse(e)] == sep'[e] && |sep'[e]| < sz + 1
      ensures SepFound(ci, rule, Skeleton(ci, rule, features, |sep'[e]|), e, |sep'[e]|, sep'[e])
    {
      if e in g {
        assert e in g - g';
      } else {
        assert e in pairs - g;
      }
    }
  }

  lemma DetailsStep(ci: CiOracle, all: seq<Edge>, s1: set<Edge>, sz: nat,
                    g: set<Edge>, sep: map<Edge, seq<string>>, details: seq<Detail>, later: seq<Edge>,
                    g': set<Edge>, sep': map<Edge, seq<string>>, rows: seq<Detail>, rm: seq<Edge>)
    requires g <= Elems(all) && g' <= g && Distinct(rm) && Elems(rm) == g - g' && s1 <= Elems(all)
    requires sz == 0 ==> g == Elems(all) && g' == s1
    requires sz > 0 ==> g <= s1
    requires DetailsState(ci, all, s1, sz, g, sep, details, later)
    requires forall e :: e in Elems(all) - g ==> e in sep && e in sep' && sep'[e] == sep[e]
    requires sz == 0 ==> rows == FirstPhaseRows(ci, EdgeList(all, g))
    requires sz > 0 ==> |rows| == |rm|
    requires sz > 0 ==> forall r :: r in rows ==> RowOfRemoval(ci, r, sz, sep', g - g')
    requires sz > 0 ==> (forall e :: e in rm ==> e in sep') && rows == RemovalRows(ci, rm, sep')
    ensures DetailsState(ci, all, s1, sz + 1, g', sep', details + rows, if sz == 0 then [] else later + rm)
  {
    if sz == 0 {
      EdgeListAll(all);
      DetailsFirst(ci, all, s1, sep', details, rows);
    } else {
      DetailsLater(ci, all, s1, sz, g, sep, details, later, g', sep', rows, rm);
    }
  }

  /** After the phase for size 0 the details are its rows alone. */
  lemma DetailsFirst(ci: CiOracle, all: seq<Edge>, s1: set<Edge>, sep': map<Edge, seq<string>>,
                     details: seq<Detail>, rows: seq<Detail>)
    requires details == [] && rows == FirstPhaseRows(ci, all)
    ensures DetailsState(ci, all, s1, 1, s1, sep', details + rows, [])
  {
    var d := details + rows;
    assert d == rows && |d| == |all|;
    assert d[..|all|] == d && d[|all|..] == [];
    RemovalRowsEmpty(ci, sep');
    assert Elems<Edge>([]) == {} == s1 - s1;
  }

  lemma RemovalRowsEmpty(ci: CiOracle, sep: map<Edge, seq<string>>)
    ensures RemovalRows(ci, [], sep) == []
  {
  }

  lemma SplitAppend<T>(a: seq<T>, b: seq<T>, k: nat)
    requires k <= |a|
    ensures (a + b)[..k] == a[..k] && (a + b)[k..] == a[k..] + b
  {
  }

  lemma DetailsLater(ci: CiOracle, all: seq<Edge>, s1: set<Edge>, sz: nat,
                     g: set<Edge>, sep: map<Edge, seq<string>>, details: seq<Detail>, later: seq<Edge>,
                     g': set<Edge>, sep': map<Edge, seq<string>>, rows: seq<Detail>, rm: seq<Edge>)
    requires sz > 0 && g' <= g <= s1 <= Elems(all) && Distinct(rm) && Elems(rm) == g - g'
    requires DetailsState(ci, all, s1, sz, g, sep, details, later)
    requires forall e :: e in Elems(all) - g ==> e in sep && e in sep' && sep'[e] == sep[e]
    requires |rows| == |rm|
    requires forall r :: r in rows ==> RowOfRemoval(ci, r, sz, sep', g - g')
    requires (forall e :: e in rm ==> e in sep') && rows == RemovalRows(ci, rm, sep')
    ensures DetailsState(ci, all, s1, sz + 1, g', sep', details + rows, later + rm)
  {
    ElemsAppend(later, rm);
    assert s1 - g' == (s1 - g) + (g - g');
    DistinctAppend(later, rm);
    SplitAppend(details, rows, |all|);
    var earlier := details[|all|..];
    forall e | e in later ensures e in Elems(all) - g {
      assert e in Elems(later);
    }
    RemovalRowsAgree(ci, later, sep, sep');
    RemovalRowsAppend(ci, later, rm, sep');
    forall r | r in earlier + rows
      ensures var e := (r.node1, r.node2);
              e in Elems(all) - g' && e in sep' && |sep'[e]| >= 1 && r == RemovalRow(ci, e, sep'[e]) && ci(e.0, e.1, Elems(sep'[e])).indep
    {
      if r in earlier {
        var e := (r.node1, r.node2);
        assert e in Elems(all) - g;
      } else {
        assert r in rows;
      }
    }
  }

  lemma {:induction false} SkeletonShrinks(ci: CiOracle, rule: PoolRule, features: seq<string>,
                                           i: nat, j: nat)
    requires i <= j
    ensures Skeleton(ci, rule, features, j) <= Skeleton(ci, rule, features, i)
  {
    if i < j {
      SkeletonShrinks(ci, rule, features, i, j - 1);
      var prev := Skeleton(ci, rule, features, j - 1);
      assert Skeleton(ci, rule, features, j) <= prev by {
        assert Skeleton(ci, rule, features, j) == AfterPhase(ci, rule, prev, j - 1);
        AfterPhaseShrinks(ci, rule, prev, j - 1);
      }
    }
  }

  lemma AfterPhaseShrinks(ci: CiOracle, rule: PoolRule, g: set<Edge>, sz: nat)
    ensures AfterPhase(ci, rule, g, sz) <= g
  {
  }

  // ---------------------------------------------------------------------------
  // pc_skeleton: orienting unshielded triples

  /** sep.get(e, []) */
  function SepOf(sep: map<Edge, seq<string>>, e: Edge): seq<string> {
    if e in sep then sep[e] else []
  }

  /** Every separating set is stored under both orientations of its pair. */
  predicate SepSymmetric(sep: map<Edge, seq<string>>) {
    forall e :: e in sep ==> Reverse(e) in sep && sep[Reverse(e)] == sep[e]
  }

  lemma SepOfReverse(sep: map<Edge, seq<string>>, e: Edge)
    requires SepSymmetric(sep)
    ensures SepOf(sep, Reverse(e)) == SepOf(sep, e)
  {
    if Reverse(e) in sep {
      assert Reverse(Reverse(e)) == e;
    }
  }

  /** x - k - y is an unshielded triple and k is not in the set that separated x and y:
      pc_skeleton orients it x -> k <- y. */
  predicate VStructure(g: set<Edge>, sep: map<Edge, seq<string>>, x: string, k: string, y: string) {
    x != y && Adjacent(g, k, x) && Adjacent(g, k, y) && !Adjacent(g, x, y) && k !in SepOf(sep, (x, y))
  }

  /** The arc k -> x is dropped: x is one end of a v-structure at k. */
  ghost predicate Collider(g: set<Edge>, sep: map<Edge, seq<string>>, k: string, x: string) {
    exists y :: VStructure(g, sep, x, k, y)
  }

  /** The arcs out of the centres ks that point at a collider parent. */
  ghost function StruckAt(g: set<Edge>, sep: map<Edge, seq<string>>, ks: set<string>): set<Edge> {
    set a | a in Undirected(g) && a.0 in ks && Collider(g, sep, a.0, a.1)
  }

  /** The partially oriented graph: both arcs of every skeleton edge, less the arcs from the
      centre of a v-structure to its ends. */
  ghost function PartiallyOriented(g: set<Edge>, sep: map<Edge, seq<string>>): set<Edge> {
    Undirected(g) - set a | a in Undirected(g) && Collider(g, sep, a.0, a.1)
  }

  /** list(G.neighbors(k)): the neighbours of k in the order of the features, the order in
      which the complete graph's edges were added. */
  function NeighborList(nodes: seq<string>, g: set<Edge>, k: string): (nb: seq<string>)
    ensures forall x :: x in nb <==> x in nodes && Adjacent(g, k, x)
    ensures Distinct(nodes) ==> Distinct(nb)
  {
    if nodes == [] then []
    else
      var rest := NeighborList(nodes[1..], g, k);
      assert forall x :: x in nodes <==> x == nodes[0] || x in nodes[1..];
      if Adjacent(g, k, nodes[0]) then
        if Distinct(nodes) then
          DistinctTail(nodes);
          DistinctCons([nodes[0]] + rest, Elems(rest));
          assert ([nodes[0]] + rest)[1..] == rest;
          [nodes[0]] + rest
        else [nodes[0]] + rest
      else
        if Distinct(nodes) then DistinctTail(nodes); rest else rest
  }

  /** The pair c = (i, j) of neighbours of k is not adjacent and k is not in its separating
      set. */
  predicate Hits(g: set<Edge>, sep: map<Edge, seq<string>>, k: string, c: seq<string>) {
    |c| == 2 && !Adjacent(g, c[0], c[1]) && k !in SepOf(sep, (c[0], c[1]))
  }

  /** The arcs out of k removed after the pairs cs were examined. */
  function HitBy(g: set<Edge>, sep: map<Edge, seq<string>>, k: string, cs: seq<seq<string>>): set<Edge> {
    set c, x | c in cs && x in c && Hits(g, sep, k, c) :: (k, x)
  }

  lemma HitBySnoc(g: set<Edge>, sep: map<Edge, seq<string>>, k: string, cs: seq<seq<string>>, c: seq<string>)
    requires |c| == 2
    ensures HitBy(g, sep, k, cs + [c]) == HitBy(g, sep, k, cs) + (if Hits(g, sep, k, c) then {(k, c[0]), (k, c[1])} else {})
  {
    assert forall d :: d in cs + [c] <==> d in cs || d == c;
    assert forall x :: x in c <==> x == c[0] || x == c[1];
  }

  /** Examining every pair of neighbours of k removes exactly the arcs from k to the ends of
      the v-structures centred at k. */
  lemma HitByColliders(nodes: seq<string>, g: set<Edge>, sep: map<Edge, seq<string>>, k: string)
    requires Distinct(nodes) && SepSymmetric(sep)
    requires forall e :: e in g ==> e.0 in nodes && e.1 in nodes
    ensures HitBy(g, sep, k, Combinations(NeighborList(nodes, g, k), 2)) == StruckAt(g, sep, {k})
  {
    var nb := NeighborList(nodes, g, k);
    var cs := Combinations(nb, 2);
    forall a | a in HitBy(g, sep, k, cs) ensures a in StruckAt(g, sep, {k}) {
      var c, x :| c in cs && x in c && Hits(g, sep, k, c) && a == (k, x);
      HitSound(nodes, g, sep, k, c, x);
    }
    forall a | a in StruckAt(g, sep, {k}) ensures a in HitBy(g, sep, k, cs) {
      var x := a.1;
      var y :| VStructure(g, sep, x, k, y);
      var c := HitComplete(nodes, g, sep, k, x, y);
    }
  }

  lemma HitSound(nodes: seq<string>, g: set<Edge>, sep: map<Edge, seq<string>>, k: string, c: seq<string>, x: string)
    requires Distinct(nodes) && SepSymmetric(sep)
    requires c in Combinations(NeighborList(nodes, g, k), 2) && x in c && Hits(g, sep, k, c)
    ensures (k, x) in StruckAt(g, sep, {k})
  {
    var nb := NeighborList(nodes, g, k);
    CombinationsShape(nb, 2, c);
    CombinationsDistinct(nb, 2, c);
    assert c[0] in Elems(nb) && c[1] in Elems(nb);
    assert c[0] != c[1];
    var i :| 0 <= i < |c| && c[i] == x;
    var y := if x == c[0] then c[1] else c[0];
    if x == c[0] {
      assert VStructure(g, sep, x, k, y);
    } else {
      assert i == 1;
      SepOfReverse(sep, (c[0], c[1]));
      assert VStructure(g, sep, x, k, y);
    }
    assert Collider(g, sep, k, x);
    assert (k, x) in Undirected(g) by {
      if (k, x) !in g {
        assert (x, k) in g && Reverse((x, k)) == (k, x);
      }
    }
  }

  lemma HitComplete(nodes: seq<string>, g: set<Edge>, sep: map<Edge, seq<string>>, k: string, x: string, y: string)
    returns (c: seq<string>)
    requires Distinct(nodes) && SepSymmetric(sep)
    requires forall e :: e in g ==> e.0 in nodes && e.1 in nodes
    requires VStructure(g, sep, x, k, y)
    ensures c in Combinations(NeighborList(nodes, g, k), 2) && x in c && Hits(g, sep, k, c)
  {
    var nb := NeighborList(nodes, g, k);
    assert x in nodes && y in nodes;
    var t := {x, y};
    assert |t| == 2;
    CombinationsComplete(nb, 2, t);
    c :| c in Combinations(nb, 2) && Elems(c) == t;
    CombinationsShape(nb, 2, c);
    PairOfSet(c, x, y);
    if c[0] != x {
      SepOfReverse(sep, (x, y));
    }
  }

  /** The pass over the pairs of neighbours of one node k. */
  method OrientAt(nodes: seq<string>, g: set<Edge>, sep: map<Edge, seq<string>>, k: string, arcs0: set<Edge>)
    returns (arcs: set<Edge>)
    requires Distinct(nodes) && SepSymmetric(sep)
    requires forall e :: e in g ==> e.0 in nodes && e.1 in nodes
    ensures arcs == arcs0 - StruckAt(g, sep, {k})
  {
    var nb := NeighborList(nodes, g, k);
    var cs := Combinations(nb, 2);
    arcs := arcs0;
    var t := 0;
    while t < |cs|
      invariant 0 <= t <= |cs|
      invariant arcs == arcs0 - HitBy(g, sep, k, cs[..t])
    {
      var c := cs[t];
      CombinationsShape(nb, 2, c);
      var i, j := c[0], c[1];
      OrientStep(g, sep, k, cs, t, arcs0, arcs);
      if !Adjacent(g, i, j) && k !in SepOf(sep, (i, j)) {
        arcs := arcs - {(k, i), (k, j)};
      }
      t := t + 1;
    }
    assert cs[..t] == cs;
    HitByColliders(nodes, g, sep, k);
  }

  /** One pair examined: its arcs out of k go when it hits. */
  lemma OrientStep(g: set<Edge>, sep: map<Edge, seq<string>>, k: string, cs: seq<seq<string>>, t: nat,
                   arcs0: set<Edge>, arcs: set<Edge>)
    requires t < |cs| && |cs[t]| == 2 && arcs == arcs0 - HitBy(g, sep, k, cs[..t])
    ensures arcs0 - HitBy(g, sep, k, cs[..t + 1])
         == if Hits(g, sep, k, cs[t]) then arcs - {(k, cs[t][0]), (k, cs[t][1])} else arcs
  {
    assert cs[..t + 1] == cs[..t] + [cs[t]];
    HitBySnoc(g, sep, k, cs[..t], cs[t]);
  }

  /** Phase 2 of pc_skeleton: both arcs of every skeleton edge, then, node by node, the
      arcs from each centre of an unshielded triple whose centre is outside the separating
      set are dropped. */
  method Orient(nodes: seq<string>, all: seq<Edge>, g: set<Edge>, sep: map<Edge, seq<string>>)
    returns (arcs: set<Edge>)
    requires Distinct(nodes) && SepSymmetric(sep) && Distinct(all) && g <= Elems(all)
    requires forall e :: e in g ==> e.0 in nodes && e.1 in nodes
    ensures arcs == PartiallyOriented(g, sep)
  {
    var es := EdgeList(all, g);
    arcs := {};
    var i := 0;
    while i < |es|
      invariant 0 <= i <= |es|
      invariant arcs == Undirected(Elems(es[..i]))
    {
      UndirectedAdd(Elems(es[..i]), es[i]);
      assert Elems(es[..i + 1]) == Elems(es[..i]) + {es[i]} by {
        assert es[..i + 1] == es[..i] + [es[i]];
        ElemsAppend(es[..i], [es[i]]);
      }
      arcs := arcs + {es[i], Reverse(es[i])};
      i := i + 1;
    }
    assert es[..i] == es && Elems(es) == g;
    var m := 0;
    while m < |nodes|
      invariant 0 <= m <= |nodes|
      invariant arcs == Undirected(g) - StruckAt(g, sep, Elems(nodes[..m]))
    {
      arcs := OrientAt(nodes, g, sep, nodes[m], arcs);
      StruckAtUnion(g, sep, Elems(nodes[..m]), nodes[m]);
      assert Elems(nodes[..m + 1]) == Elems(nodes[..m]) + {nodes[m]} by {
        assert nodes[..m + 1] == nodes[..m] + [nodes[m]];
        ElemsAppend(nodes[..m], [nodes[m]]);
      }
      m := m + 1;
    }
    assert nodes[..m] == nodes;
    StruckAtAll(nodes, g, sep);
  }

  lemma StruckAtUnion(g: set<Edge>, sep: map<Edge, seq<string>>, ks: set<string>, k: string)
    ensures StruckAt(g, sep, ks) + StruckAt(g, sep, {k}) == StruckAt(g, sep, ks + {k})
  {
  }

  lemma StruckAtAll(nodes: seq<string>, g: set<Edge>, sep: map<Edge, seq<string>>)
    requires forall e :: e in g ==> e.0 in nodes && e.1 in nodes
    ensures Undirected(g) - StruckAt(g, sep, Elems(nodes)) == PartiallyOriented(g, sep)
  {
    forall a | a in Undirected(g) ensures a.0 in Elems(nodes) {
      if a !in g {
        var e :| e in g && a == Reverse(e);
      }
    }
  }

  // ---------------------------------------------------------------------------
  // pc_skeleton

  lemma SepRecordSymmetric(ci: CiOracle, rule: PoolRule, features: seq<string>, sz: nat,
                           g: set<Edge>, sep: map<Edge, seq<string>>)
    requires SepRecord(ci, rule, features, sz, g, sep)
    ensures SepSymmetric(sep)
  {
    var pairs := Elems(Pairs(features));
    forall k | k in sep ensures Reverse(k) in sep && sep[Reverse(k)] == sep[k] {
      if k !in pairs - g {
        var e :| e in pairs - g && k == Reverse(e);
        assert Reverse(k) == e;
      }
    }
  }

  lemma EndpointsInFeatures(features: seq<string>, g: set<Edge>)
    requires g <= Elems(Pairs(features))
    ensures forall e :: e in g ==> e.0 in features && e.1 in features
  {
    forall e | e in g ensures e.0 in features && e.1 in features {
      PairsMember(features, e);
    }
  }

  /** pc_skeleton: the removal phases for sizes 0 .. max_cond, then the orientation of the
      unshielded triples. Besides the partially oriented graph (arcs) and the details rows it
      hands back the skeleton and the separating sets it kept, which its contract speaks of;
      the ghost later lists the pairs removed after the phase for size 0, in the order of
      their rows. */
  method PcSkeleton(features: seq<string>, ci: CiOracle, rule: PoolRule, maxCond: int)
    returns (arcs: set<Edge>, details: seq<Detail>, skeleton: set<Edge>, sep: map<Edge, seq<string>>,
             ghost later: seq<Edge>)
    requires Distinct(features)
    ensures skeleton == Skeleton(ci, rule, features, Phases(maxCond))
    ensures arcs == PartiallyOriented(skeleton, sep)
    ensures sep.Keys == Undirected(Elems(Pairs(features)) - skeleton) && SepSymmetric(sep)
    ensures forall e :: e in Elems(Pairs(features)) - skeleton ==>
      |sep[e]| <= maxCond && SepFound(ci, rule, Skeleton(ci, rule, features, |sep[e]|), e, |sep[e]|, sep[e])
    ensures maxCond < 0 ==> details == [] && skeleton == Elems(Pairs(features))
    ensures maxCond >= 0 ==>
      && |details| == |Pairs(features)| + |Skeleton(ci, rule, features, 1) - skeleton|
      && details[..|Pairs(features)|] == FirstPhaseRows(ci, Pairs(features))
      && LaterRows(ci, Elems(Pairs(features)) - skeleton, sep, details[|Pairs(features)|..])
    ensures maxCond >= 0 ==>
      && Distinct(later) && Elems(later) == Skeleton(ci, rule, features, 1) - skeleton
      && (forall e :: e in later ==> e in sep)
      && details[|Pairs(features)|..] == RemovalRows(ci, later, sep)
  {
    skeleton, sep, details, later := RemovalPhases(features, ci, rule, maxCond);
    SepRecordSymmetric(ci, rule, features, Phases(maxCond), skeleton, sep);
    EndpointsInFeatures(features, skeleton);
    PairsDistinct(features);
    arcs := Orient(features, Pairs(features), skeleton, sep);
    if maxCond >= 0 {
      DistinctSize(later);
      assert AfterPhase(ci, rule, Elems(Pairs(features)), 0) == Skeleton(ci, rule, features, 1);
    }
  }

  // ---------------------------------------------------------------------------
  // The conditioning pool as written

  /** pd.crosstab of the pairs (X_i, X_j) of one stratum: 2 x 2 exactly when both columns
      take both values. */
  function Tabulate(cells: seq<(bool, bool)>): (t: Crosstab)
    ensures t.TwoByTwo? <==> (exists r :: r in cells && r.0) && (exists r :: r in cells && !r.0)
                             && (exists r :: r in cells && r.1) && (exists r :: r in cells && !r.1)
  {
    var a := |set i | 0 <= i < |cells| && !cells[i].0 && !cells[i].1|;
    var b := |set i | 0 <= i < |cells| && !cells[i].0 && cells[i].1|;
    var c := |set i | 0 <= i < |cells| && cells[i].0 && !cells[i].1|;
    var d := |set i | 0 <= i < |cells| && cells[i].0 && cells[i].1|;
    if (exists r :: r in cells && r.0) && (exists r :: r in cells && !r.0)
       && (exists r :: r in cells && r.1) && (exists r :: r in cells && !r.1)
    then TwoByTwo(a, b, c, d)
    else OtherShape
  }

  /** Grouping by a conditioning set that contains X_j makes X_j constant in every stratum,
      so no stratum's table is 2 x 2, none is informative, the CMH denominator stays 0 and
      _ci_test reports independence with p = 1.0. */
  lemma EndpointInConditioningSet(strata: seq<seq<(bool, bool)>>)
    requires forall k, r, r' :: 0 <= k < |strata| && r in strata[k] && r' in strata[k] ==> r.1 == r'.1
    ensures forall k :: 0 <= k < |strata| ==> !Informative(Tabulate(strata[k]))
  {
    forall k | 0 <= k < |strata| ensures Tabulate(strata[k]).OtherShape? {
      var cells := strata[k];
      if cells != [] {
        assert forall r :: r in cells ==> r.1 == cells[0].1;
      }
    }
  }

  /** The oracle answers as _ci_test does at the given alpha on the inputs data(u, v, S):
      the crosstabs and library p-values of the data frame at hand. */
  ghost predicate TestedBy(ci: CiOracle, data: (string, string, set<string>) -> CiInput,
                           alpha: real, chi2Cdf: real -> real) {
    forall u, v, s :: ci(u, v, s) == CiDecision(data(u, v, s), alpha, chi2Cdf)
  }

  /** The oracle answers independent, with p-value 1, whenever the conditioning set contains
      the second endpoint. */
  ghost predicate EndpointBlind(ci: CiOracle) {
    forall u, v, s :: v in s ==> ci(u, v, s) == CiResult(true, 1.0)
  }

  /** Grouping by a set that holds X_v leaves no informative stratum
      (EndpointInConditioningSet), so _ci_test is blind to such sets at every alpha. */
  lemma TestedEndpointBlind(ci: CiOracle, data: (string, string, set<string>) -> CiInput,
                            alpha: real, chi2Cdf: real -> real)
    requires TestedBy(ci, data, alpha, chi2Cdf)
    requires forall u, v, s :: v in s ==>
               data(u, v, s).Stratified? &&
               forall k :: 0 <= k < |data(u, v, s).strata| ==> !Informative(data(u, v, s).strata[k])
    ensures EndpointBlind(ci)
  {
    forall u, v, s | v in s ensures ci(u, v, s) == CiResult(true, 1.0) {
      assert ci(u, v, s) == CiDecision(data(u, v, s), alpha, chi2Cdf);
    }
  }

  /** As written, the phase for size 1 tests every remaining edge (u, v) with S = {v} among
      others, which _ci_test reports independent at any alpha, so the skeleton is empty
      after it, whatever the data. */
  lemma AsWrittenEmptiesSkeleton(ci: CiOracle, features: seq<string>, phases: nat)
    requires EndpointBlind(ci) && phases >= 2
    ensures Skeleton(ci, AsWritten, features, phases) == {}
  {
    var g1 := Skeleton(ci, AsWritten, features, 1);
    forall e | e in g1 ensures Separable(ci, AsWritten, g1, e, 1) {
      var s := {e.1};
      assert Adjacent(g1, e.0, e.1);
      assert s <= Pool(AsWritten, g1, e.0, e.1);
      assert ci(e.0, e.1, s).indep;
    }
    assert Skeleton(ci, AsWritten, features, 2) == {};
    SkeletonShrinks(ci, AsWritten, features, 2, phases);
  }

  /** With both endpoints excluded from the pool, a pair that tests dependent given every set
      of other variables keeps its edge through every phase. */
  lemma {:induction false} DependentPairSurvives(ci: CiOracle, features: seq<string>, e: Edge,
                                                 phases: nat)
    requires e in Pairs(features)
    requires forall s :: e.0 !in s && e.1 !in s ==> !ci(e.0, e.1, s).indep
    ensures e in Skeleton(ci, EndpointsExcluded, features, phases)
  {
    if phases > 0 {
      DependentPairSurvives(ci, features, e, phases - 1);
      var g := Skeleton(ci, EndpointsExcluded, features, phases - 1);
      forall s | s <= Pool(EndpointsExcluded, g, e.0, e.1) ensures !ci(e.0, e.1, s).indep {
        assert e.0 !in s && e.1 !in s;
      }
    }
  }

  // ---------------------------------------------------------------------------
  // motif_census: the key of one induced subgraph

  /** The isomorphism-class key of a connected induced subgraph: its node count, its edge
      count and its degree sequence in decreasing order. The census formats it as the
      string n<size>_e<edges>_<degrees>, which determines it uniquely. */
  datatype MotifKey = MotifKey(size: nat, edges: nat, degrees: seq<nat>)

  /** How many nodes of s other than x are joined to x. */
  function NbrCount(g: set<Edge>, s: seq<string>, x: string): nat {
    if s == [] then 0
    else
      var y := s[|s| - 1];
      NbrCount(g, s[..|s| - 1], x) + (if y != x && Adjacent(g, x, y) then 1 else 0)
  }

  /** The degree of x in the subgraph induced on s: a self-loop adds two. */
  function Degree(g: set<Edge>, s: seq<string>, x: string): nat {
    NbrCount(g, s, x) + (if Adjacent(g, x, x) then 2 else 0)
  }

  /** The number of edges of the subgraph induced on s: each pair is counted at its later
      node, a self-loop once. */
  function EdgeCount(g: set<Edge>, s: seq<string>): nat {
    if s == [] then 0
    else
      var init, z := s[..|s| - 1], s[|s| - 1];
      EdgeCount(g, init) + NbrCount(g, init, z) + (if Adjacent(g, z, z) then 1 else 0)
  }

  /** The degrees in the subgraph induced on s of the nodes of t, in the order of t. */
  function DegreesOf(g: set<Edge>, s: seq<string>, t: seq<string>): (ds: seq<nat>)
    ensures |ds| == |t|
  {
    if t == [] then []
    else DegreesOf(g, s, t[..|t| - 1]) + [Degree(g, s, t[|t| - 1])]
  }

  function NatSum(xs: seq<nat>): nat {
    if xs == [] then 0 else NatSum(xs[..|xs| - 1]) + xs[|xs| - 1]
  }

  predicate NatGe(a: nat, b: nat) {
    a >= b
  }

  lemma NatGeIsTotalPreorder()
    ensures TotalPreorder(NatGe)
  {
  }

  /** The key the census files the subgraph induced on sub under. */
  function Key(g: set<Edge>, sub: seq<string>): MotifKey {
    NatGeIsTotalPreorder();
    MotifKey(|sub|, EdgeCount(g, sub), SortBy(DegreesOf(g, sub, sub), NatGe))
  }

  /** The neighbours of x among the nodes of s. */
  ghost function NbrSet(g: set<Edge>, s: seq<string>, x: string): set<string> {
    set y | y in s && y != x && Adjacent(g, x, y)
  }

  /** NbrCount counts the neighbours of x in the induced subgraph. */
  lemma {:induction false} NbrCountIsSize(g: set<Edge>, s: seq<string>, x: string)
    requires Distinct(s)
    ensures NbrCount(g, s, x) == |NbrSet(g, s, x)|
  {
    if s != [] {
      var init, z := s[..|s| - 1], s[|s| - 1];
      assert s == init + [z];
      DistinctSnoc(init, z);
      NbrCountIsSize(g, init, x);
      if z != x && Adjacent(g, x, z) {
        assert NbrSet(g, s, x) == NbrSet(g, init, x) + {z};
      } else {
        assert NbrSet(g, s, x) == NbrSet(g, init, x);
      }
    }
  }

  /** Adding z to the subgraph raises the degree of each neighbour of z in t by one. */
  lemma {:induction false} DegreesGrow(g: set<Edge>, s: seq<string>, z: string, t: seq<string>)
    requires z !in t
    ensures NatSum(DegreesOf(g, s + [z], t)) == NatSum(DegreesOf(g, s, t)) + NbrCount(g, t, z)
  {
    if t != [] {
      var t', y := t[..|t| - 1], t[|t| - 1];
      DegreesGrow(g, s, z, t');
      assert (s + [z])[..|s|] == s;
      assert NbrCount(g, s + [z], y) == NbrCount(g, s, y) + (if Adjacent(g, z, y) then 1 else 0);
      var big := DegreesOf(g, s + [z], t);
      var small := DegreesOf(g, s, t);
      assert big[..|big| - 1] == DegreesOf(g, s + [z], t');
      assert small[..|small| - 1] == DegreesOf(g, s, t');
    }
  }

  /** The handshake lemma: the degrees of an induced subgraph add up to twice its edges. */
  lemma {:induction false} Handshake(g: set<Edge>, s: seq<string>)
    requires Distinct(s)
    ensures NatSum(DegreesOf(g, s, s)) == 2 * EdgeCount(g, s)
  {
    if s != [] {
      var init, z := s[..|s| - 1], s[|s| - 1];
      assert s == init + [z];
      DistinctSnoc(init, z);
      Handshake(g, init);
      DegreesGrow(g, init, z, init);
      var ds := DegreesOf(g, s, s);
      assert ds[..|ds| - 1] == DegreesOf(g, s, init);
      assert NbrCount(g, s, z) == NbrCount(g, init, z);
    }
  }

  lemma {:induction false} NatSumAppend(a: seq<nat>, b: seq<nat>)
    ensures NatSum(a + b) == NatSum(a) + NatSum(b)
  {
    if b == [] {
      assert a + b == a;
    } else {
      var b' := b[..|b| - 1];
      NatSumAppend(a, b');
      assert (a + b)[..|a + b| - 1] == a + b';
    }
  }

  /** The sum of a sequence of naturals does not depend on their order. */
  lemma {:induction false} NatSumPermutation(a: seq<nat>, b: seq<nat>)
    requires multiset(a) == multiset(b)
    ensures NatSum(a) == NatSum(b)
    decreases |a|
  {
    if a != [] {
      var a', x := a[..|a| - 1], a[|a| - 1];
      assert a == a' + [x];
      assert x in multiset(b);
      var j :| 0 <= j < |b| && b[j] == x;
      var b' := b[..j] + b[j + 1..];
      assert b == b[..j] + [x] + b[j + 1..];
      assert multiset(b') == multiset(b) - multiset{x};
      NatSumPermutation(a', b');
      NatSumAppend(b[..j] + [x], b[j + 1..]);
      NatSumAppend(b[..j], [x]);
      NatSumAppend(b[..j], b[j + 1..]);
    }
  }

  /** The key records the size, an edge count that is half the degree total, and the
      degrees of all the subgraph's nodes sorted in decreasing order. */
  lemma KeyMeaning(g: set<Edge>, sub: seq<string>)
    requires Distinct(sub)
    ensures var k := Key(g, sub);
      && k.size == |sub| == |k.degrees|
      && multiset(k.degrees) == multiset(DegreesOf(g, sub, sub))
      && SortedBy(k.degrees, NatGe)
      && NatSum(k.degrees) == 2 * k.edges
  {
    var k := Key(g, sub);
    assert |k.degrees| == |multiset(k.degrees)| == |multiset(DegreesOf(g, sub, sub))|;
    Handshake(g, sub);
    NatSumPermutation(k.degrees, DegreesOf(g, sub, sub));
  }

  // ---------------------------------------------------------------------------
  // motif_census: connectivity of an induced subgraph

  /** No edge of the subgraph induced on vs leaves c. */
  ghost predicate ClosedIn(g: set<Edge>, vs: set<string>, c: set<string>) {
    forall x, y :: x in c && y in vs && Adjacent(g, x, y) ==> y in c
  }

  /** The subgraph induced on vs is connected: it has a node, and the only non-empty set
      of its nodes that no edge leaves is the whole of it. */
  ghost predicate Connected(g: set<Edge>, vs: set<string>) {
    vs != {} && forall c :: c <= vs && c != {} && ClosedIn(g, vs, c) ==> c == vs
  }

  /** nx.is_connected(G.subgraph(sub)): a breadth-first search from the first node reaches
      every node. The graph without nodes raises. */
  method IsConnected(g: set<Edge>, sub: seq<string>) returns (r: Result<bool>)
    ensures r.Err? <==> sub == []
    ensures r.Ok? ==> (r.value <==> Connected(g, Elems(sub)))
  {
    if sub == [] {
      return Err("Connectivity is undefined for the null graph.");
    }
    var vs := Elems(sub);
    var start := sub[0];
    var visited := {start};
    var frontier := {start};
    while frontier != {}
      invariant Reach(g, vs, start, visited, frontier)
      decreases |vs - visited|, |frontier|
    {
      var x :| x in frontier;
      var newly := set y | y in sub && Adjacent(g, x, y) && y !in visited;
      ReachStep(g, vs, start, visited, frontier, x, newly);
      visited, frontier := visited + newly, frontier - {x} + newly;
    }
    ReachConnected(g, vs, start, visited);
    return Ok(visited == vs);
  }

  /** The search's invariant: what it has visited lies inside every closed set holding the
      start, and the nodes it has finished with have all their neighbours visited. */
  ghost predicate Reach(g: set<Edge>, vs: set<string>, start: string,
                        visited: set<string>, frontier: set<string>) {
    && start in visited && visited <= vs && frontier <= visited
    && (forall x, y :: x in visited && x !in frontier && y in vs && Adjacent(g, x, y) ==>
          y in visited)
    && (forall c :: ClosedIn(g, vs, c) && start in c ==> visited <= c)
  }

  lemma ReachStep(g: set<Edge>, vs: set<string>, start: string, visited: set<string>,
                  frontier: set<string>, x: string, newly: set<string>)
    requires Reach(g, vs, start, visited, frontier) && x in frontier
    requires forall y :: y in newly <==> y in vs && Adjacent(g, x, y) && y !in visited
    ensures Reach(g, vs, start, visited + newly, frontier - {x} + newly)
    ensures newly == {} ==> |frontier - {x} + newly| < |frontier|
    ensures newly != {} ==> |vs - (visited + newly)| < |vs - visited|
  {
    if newly != {} {
      var y :| y in newly;
      assert vs - (visited + newly) < vs - visited by {
        assert y in vs - visited && y !in vs - (visited + newly);
      }
    }
  }

  /** When the search stops, it has visited every node exactly when the subgraph is
      connected. */
  lemma ReachConnected(g: set<Edge>, vs: set<string>, start: string, visited: set<string>)
    requires Reach(g, vs, start, visited, {})
    ensures visited == vs <==> Connected(g, vs)
  {
    assert ClosedIn(g, vs, visited);
    if visited == vs {
      forall c | c <= vs && c != {} && ClosedIn(g, vs, c) ensures c == vs {
        assert ClosedIn(g, vs, vs - c);
      }
    }
  }

  // ---------------------------------------------------------------------------
  // motif_census: the count

  /** The keys of the connected subgraphs induced on subs, in the order of subs. */
  ghost function ConnectedKeys(g: set<Edge>, subs: seq<seq<string>>): seq<MotifKey> {
    if subs == [] then []
    else
      var sub := subs[|subs| - 1];
      ConnectedKeys(g, subs[..|subs| - 1]) + (if Connected(g, Elems(sub)) then [Key(g, sub)] else [])
  }

  /** Every key the census counts, in the order it counts them: for each size no larger
      than the node count, the connected induced subgraphs on that many nodes. */
  ghost function Census(nodes: seq<string>, g: set<Edge>, sizes: seq<int>): seq<MotifKey> {
    if sizes == [] then []
    else
      var sz := sizes[|sizes| - 1];
      Census(nodes, g, sizes[..|sizes| - 1])
        + (if 0 < sz <= |nodes| then ConnectedKeys(g, Combinations(nodes, sz)) else [])
  }

  /** The sizes the census runs over: [3, 4] unless given. */
  function SizesOr(sizes: Option<seq<int>>): seq<int> {
    if sizes.Some? then sizes.value else [3, 4]
  }

  /** motif_census(G, sizes): counts the connected induced subgraphs of each size no larger
      than the node count, by key. A negative size makes combinations raise, and a size of
      zero makes the connectivity test raise on the empty subgraph; either discards the
      counts so far. */
  method MotifCensus(nodes: seq<string>, g: set<Edge>, sizes: Option<seq<int>>)
      returns (r: Result<seq<Counted<MotifKey>>>)
    requires Distinct(nodes)
    ensures r.Err? <==> exists i :: 0 <= i < |SizesOr(sizes)| && SizesOr(sizes)[i] <= 0
    ensures r.Ok? ==> MostCommonOf(r.value, Census(nodes, g, SizesOr(sizes)))
  {
    var found := CensusKeys(nodes, g, SizesOr(sizes));
    if found.Err? {
      return Err(found.message);
    }
    var rows := MostCommon(found.value);
    return Ok(rows);
  }

  /** The keys the census counts, over all the sizes, or the first error a size raises. */
  method CensusKeys(nodes: seq<string>, g: set<Edge>, sizes: seq<int>)
      returns (r: Result<seq<MotifKey>>)
    ensures r.Err? <==> exists i :: 0 <= i < |sizes| && sizes[i] <= 0
    ensures r.Ok? ==> r.value == Census(nodes, g, sizes)
  {
    var found: seq<MotifKey> := [];
    for i := 0 to |sizes|
      invariant forall j :: 0 <= j < i ==> sizes[j] > 0
      invariant found == Census(nodes, g, sizes[..i])
    {
      var next := NextSize(nodes, g, sizes, i, found);
      if next.Err? {
        assert sizes[i] <= 0;
        return Err(next.message);
      }
      assert forall j :: 0 <= j < i + 1 ==> sizes[j] > 0 by {
        assert sizes[i] > 0;
      }
      found := next.value;
    }
    assert sizes[..|sizes|] == sizes;
    return Ok(found);
  }

  /** One pass of the census's loop over sizes: sizes above the node count are skipped. */
  method NextSize(nodes: seq<string>, g: set<Edge>, sizes: seq<int>, i: nat, found: seq<MotifKey>)
      returns (r: Result<seq<MotifKey>>)
    requires i < |sizes| && found == Census(nodes, g, sizes[..i])
    ensures r.Err? <==> sizes[i] <= 0
    ensures r.Ok? ==> r.value == Census(nodes, g, sizes[..i + 1])
  {
    var sz := sizes[i];
    CensusStep(nodes, g, sizes, i);
    if sz > |nodes| {
      return Ok(found);
    }
    if sz < 0 {
      return Err("r must be non-negative");
    }
    var more := CountSize(nodes, g, sz);
    if more.Err? {
      return Err(more.message);
    }
    return Ok(found + more.value);
  }

  lemma CensusStep(nodes: seq<string>, g: set<Edge>, sizes: seq<int>, i: nat)
    requires i < |sizes|
    ensures Census(nodes, g, sizes[..i + 1]) == Census(nodes, g, sizes[..i])
      + (if 0 < sizes[i] <= |nodes| then ConnectedKeys(g, Combinations(nodes, sizes[i])) else [])
  {
    assert sizes[..i + 1][..i] == sizes[..i];
  }

  /** The census at one size: the keys of the connected subgraphs induced on each
      combination of sz nodes, or the error the empty subgraph raises when sz is zero. */
  method CountSize(nodes: seq<string>, g: set<Edge>, sz: nat) returns (r: Result<seq<MotifKey>>)
    ensures r.Err? <==> sz == 0
    ensures r.Ok? ==> r.value == ConnectedKeys(g, Combinations(nodes, sz))
  {
    var subs := Combinations(nodes, sz);
    var found: seq<MotifKey> := [];
    for t := 0 to |subs|
      invariant sz == 0 ==> t == 0
      invariant found == ConnectedKeys(g, subs[..t])
    {
      var sub := subs[t];
      assert subs[..t + 1][..t] == subs[..t];
      CombinationsShape(nodes, sz, sub);
      var connected := IsConnected(g, sub);
      if connected.Err? {
        return Err(connected.message);
      }
      if connected.value {
        found := found + [Key(g, sub)];
      }
    }
    assert subs[..|subs|] == subs;
    return Ok(found);
  }
}
